// PoolProperties: what the buffer pool operations guarantee, and where the
// code as written falls short of the intended bookkeeping invariant.

module PoolProperties {

  import opened Pages
  import ClockSpec
  import DiskSpec
  import opened PoolSpec

  predicate Unpinned(p: Pool, f: int)
    requires Wf(p)
  {
    IsFrame(f) && p.frames[f].Some? && p.frames[f].value.pinCount == 0
  }

  /** The intended invariant of the manager: the page table is exactly the
      inverse of "slot -> occupant", the free list holds every empty slot once
      and nothing else, the replacer tracks exactly the resident unpinned
      frames, and every id in the pool or the store has been minted. */
  ghost predicate Consistent(p: Pool)
  {
    && Wf(p)
    && (forall id :: id in p.pageTable ==>
          p.frames[p.pageTable[id]].Some? && p.frames[p.pageTable[id]].value.id == id)
    && (forall f :: IsFrame(f) && p.frames[f].Some? ==>
          p.frames[f].value.id in p.pageTable && p.pageTable[p.frames[f].value.id] == f)
    && (forall i, j :: 0 <= i < j < |p.freeList| ==> p.freeList[i] != p.freeList[j])
    && (forall f :: f in p.freeList <==> IsFrame(f) && p.frames[f].None?)
    && (forall f :: f in ClockSpec.Frames(p.clock.list) <==> Unpinned(p, f))
    && (forall f :: IsFrame(f) && p.frames[f].Some? ==> p.frames[f].value.id <= p.store.numPages)
    && (forall k :: k in p.store.pages ==> k <= p.store.numPages)
  }

  /** Consistent except that frame `f` is empty and on no list: putting it
      back on the free list would restore the invariant. */
  ghost predicate ConsistentButFor(p: Pool, f: int)
  {
    && Wf(p) && IsFrame(f) && f !in p.freeList && p.frames[f].None?
    && Consistent(p.(freeList := p.freeList + [f]))
  }

  /** Every page the replacer may evict is clean. */
  ghost predicate CleanCandidates(p: Pool)
    requires Wf(p)
  {
    forall f :: Unpinned(p, f) ==> !p.frames[f].value.isDirty
  }

  ghost function Occupied(p: Pool): set<int>
    requires Wf(p)
  {
    set f | 0 <= f < MAX_POOL_SIZE && p.frames[f].Some?
  }

  // ---- capacity ----

  lemma {:induction false} DistinctCard(s: seq<int>)
    requires forall i, j :: 0 <= i < j < |s| ==> s[i] != s[j]
    ensures |set x | x in s| == |s|
  {
    if |s| > 0 {
      DistinctCard(s[1..]);
      assert (set x | x in s) == {s[0]} + (set x | x in s[1..]);
      assert s[0] !in (set x | x in s[1..]);
    }
  }

  ghost function EmptySlots(p: Pool): set<int>
    requires Wf(p)
  {
    set f | 0 <= f < MAX_POOL_SIZE && p.frames[f].None?
  }

  lemma SlotsSplit(p: Pool)
    requires Wf(p)
    ensures |EmptySlots(p)| + |Occupied(p)| == MAX_POOL_SIZE
  {
    assert EmptySlots(p) + Occupied(p) == {0, 1, 2, 3};
    assert EmptySlots(p) * Occupied(p) == {};
  }

  /** The free list and the occupied slots split the four frames between them. */
  lemma Capacity(p: Pool)
    requires Consistent(p)
    ensures |p.freeList| + |Occupied(p)| == MAX_POOL_SIZE
  {
    var free := set x | x in p.freeList;
    DistinctCard(p.freeList);
    assert free == EmptySlots(p) by {
      forall x ensures x in free <==> x in EmptySlots(p) {
        assert x in free <==> x in p.freeList;
      }
    }
    SlotsSplit(p);
  }

  lemma InitConsistent(store: DiskSpec.Store)
    requires DiskSpec.Wf(store) && (forall k :: k in store.pages ==> k <= store.numPages)
    ensures Consistent(Init(store))
    ensures |Init(store).freeList| == MAX_POOL_SIZE && Occupied(Init(store)) == {}
  {
    var p := Init(store);
    forall f ensures f in p.freeList <==> IsFrame(f) && p.frames[f].None? {
      if IsFrame(f) { assert p.freeList[f] == f; }
    }
  }

  // ---- acquiring a frame ----

  /** A frame taken off the free list or from the replacer (with a clean
      occupant) leaves the pool consistent except for that one detached frame;
      the store and every other slot are untouched. The free-list head leaves
      the replacer and the page table alone; a victim leaves the replacer as
      `victim` left it and its id leaves the page table. With no free frame
      and nothing evictable the pool is exhausted and nothing changes. */
  lemma AcquireDetaches(p: Pool)
    requires Consistent(p)
    requires |p.freeList| > 0 || CleanCandidates(p)
    ensures var (a, q) := Acquire(p);
      && (a.Ok? ==> ConsistentButFor(q, a.value) && q.store == p.store)
      && (a.Ok? ==> q.pageTable.Keys <= p.pageTable.Keys)
      && (a.Ok? ==> forall g :: IsFrame(g) && g != a.value ==> q.frames[g] == p.frames[g])
      && (a.Ok? && |p.freeList| > 0 ==>
            && a.value == p.freeList[0] && q.freeList == p.freeList[1..]
            && q.clock == p.clock && q.pageTable == p.pageTable)
      && (a.Ok? && |p.freeList| == 0 ==>
            && ClockSpec.Victim(p.clock).0 == Some(a.value) && p.frames[a.value].Some?
            && q.freeList == p.freeList && q.clock == ClockSpec.Victim(p.clock).1
            && q.pageTable == p.pageTable - {p.frames[a.value].value.id})
      && (a.Err? ==> a.error == PoolExhausted && q == p)
  {
    if |p.freeList| > 0 {
      FromFreeList(p);
    } else {
      FromReplacer(p);
    }
  }

  /** The free-list head is handed out: the free list becomes its tail and
      nothing else changes. */
  lemma FromFreeList(p: Pool)
    requires Consistent(p) && |p.freeList| > 0
    ensures var (a, q) := Acquire(p);
      && a == Ok(p.freeList[0]) && ConsistentButFor(q, a.value)
      && q.freeList == p.freeList[1..] && q.frames == p.frames && q.clock == p.clock
      && q.pageTable == p.pageTable && q.store == p.store
  {
    var f := p.freeList[0];
    var q := p.(freeList := p.freeList[1..]);
    assert Acquire(p) == (Ok(f), q);
    var back := q.(freeList := q.freeList + [f]);
    assert forall x :: x in back.freeList <==> x in p.freeList by {
      assert p.freeList == [f] + q.freeList;
    }
    assert f !in q.freeList by {
      forall i | 0 <= i < |q.freeList| ensures q.freeList[i] != f {
        assert q.freeList[i] == p.freeList[i + 1];
      }
    }
    forall i, j | 0 <= i < j < |back.freeList| ensures back.freeList[i] != back.freeList[j] {
      if j < |q.freeList| {
        assert back.freeList[i] == p.freeList[i + 1] && back.freeList[j] == p.freeList[j + 1];
      }
    }
  }

  /** With no free frame, the replacer's victim holds a clean page: its slot
      is emptied, its id leaves the page table, and the other slots and the
      store are untouched. */
  lemma FromReplacer(p: Pool)
    requires Consistent(p) && |p.freeList| == 0 && CleanCandidates(p)
    ensures var (a, q) := Acquire(p);
      && (a.Ok? ==> ConsistentButFor(q, a.value) && q.store == p.store)
      && (a.Ok? ==> q.pageTable.Keys <= p.pageTable.Keys)
      && (a.Ok? ==>
            && ClockSpec.Victim(p.clock).0 == Some(a.value) && q.freeList == p.freeList
            && p.frames[a.value].Some? && !p.frames[a.value].value.isDirty
            && q.pageTable == p.pageTable - {p.frames[a.value].value.id}
            && q.clock == ClockSpec.Victim(p.clock).1
            && (forall g :: IsFrame(g) && g != a.value ==> q.frames[g] == p.frames[g]))
      && (a.Err? ==> a.error == PoolExhausted && q == p)
  {
    var (v, clock) := ClockSpec.Victim(p.clock);
    if v.Some? {
      var f := v.value;
      assert Unpinned(p, f);
      var page := p.frames[f].value;
      var q := p.(clock := clock, frames := p.frames[f := None], pageTable := p.pageTable - {page.id});
      assert Acquire(p) == (Ok(f), q);
      var back := q.(freeList := [f]);
      assert back == q.(freeList := q.freeList + [f]);
      forall x ensures x in back.freeList <==> IsFrame(x) && back.frames[x].None? {
        if IsFrame(x) && x != f { assert x !in p.freeList; }
      }
      forall g | IsFrame(g) && back.frames[g].Some?
        ensures back.frames[g].value.id in back.pageTable && back.pageTable[back.frames[g].value.id] == g
      {
        assert p.frames[g].value.id != page.id;
      }
      forall g ensures g in ClockSpec.Frames(back.clock.list) <==> Unpinned(back, g) {
      }
    }
  }

  /** Installing a pinned page with a not-yet-indexed, minted id into the
      detached frame restores the invariant (the store may meanwhile have
      minted more ids). */
  lemma InstallConsistent(q: Pool, f: int, page: Page, store: DiskSpec.Store)
    requires ConsistentButFor(q, f)
    requires DiskSpec.Wf(store) && store.pages == q.store.pages && q.store.numPages <= store.numPages
    requires page.id !in q.pageTable && page.id <= store.numPages && page.pinCount > 0
    ensures Consistent(q.(store := store, pageTable := q.pageTable[page.id := f], frames := q.frames[f := Some(page)]))
  {
    var back := q.(freeList := q.freeList + [f]);
    var r := q.(store := store, pageTable := q.pageTable[page.id := f], frames := q.frames[f := Some(page)]);
    forall x ensures x in r.freeList <==> IsFrame(x) && r.frames[x].None? {
      assert x in r.freeList ==> x in back.freeList;
      if IsFrame(x) && r.frames[x].None? { assert x in back.freeList; }
    }
    forall i, j | 0 <= i < j < |r.freeList| ensures r.freeList[i] != r.freeList[j] {
      assert r.freeList[i] == back.freeList[i] && r.freeList[j] == back.freeList[j];
    }
    forall g ensures g in ClockSpec.Frames(r.clock.list) <==> Unpinned(r, g) {
      assert Unpinned(back, g) <==> g != f && Unpinned(r, g);
    }
    forall id | id in r.pageTable
      ensures r.frames[r.pageTable[id]].Some? && r.frames[r.pageTable[id]].value.id == id
    {
      if id != page.id { assert back.pageTable[id] != f; }
    }
  }

  /** `new_page` from a consistent pool keeps it consistent when it succeeds,
      provided the frame comes off the free list or every evictable page is
      clean: the next id is minted and maps to the acquired frame, which holds
      a fresh page; the other slots and the stored pages are untouched. The
      free-list head leaves the replacer alone; an evicted page's id leaves
      the page table and the replacer is as `victim` left it. An exhausted
      pool is left unchanged. When the store has run out of ids the acquired
      frame is lost: it is empty but on no list. */
  lemma NewPageConsistent(p: Pool)
    requires Consistent(p)
    requires |p.freeList| > 0 || CleanCandidates(p)
    ensures var (r, q) := NewPage(p);
      var n := p.store.numPages + 1;
      && (r.Ok? ==> Consistent(q) && q.frames[r.value] == Some(FreshPage(n)))
      && (r.Ok? ==> q.store.pages == p.store.pages && q.store.numPages == n)
      && (r.Ok? ==> forall g :: IsFrame(g) && g != r.value ==> q.frames[g] == p.frames[g])
      && (r.Ok? && |p.freeList| > 0 ==>
            && r.value == p.freeList[0] && q.freeList == p.freeList[1..]
            && q.clock == p.clock && q.pageTable == p.pageTable[n := r.value])
      && (r.Ok? && |p.freeList| == 0 ==>
            && ClockSpec.Victim(p.clock).0 == Some(r.value) && p.frames[r.value].Some?
            && q.freeList == p.freeList && q.clock == ClockSpec.Victim(p.clock).1
            && q.pageTable == (p.pageTable - {p.frames[r.value].value.id})[n := r.value])
      && (r == Err(PoolExhausted) ==> q == p)
      && (r == Err(OutOfStorage) ==> ConsistentButFor(q, Acquire(p).0.value))
  {
    var (a, q) := Acquire(p);
    if |p.freeList| > 0 {
      FromFreeList(p);
    } else {
      FromReplacer(p);
    }
    if a.Ok? {
      NewPageInstalls(p);
    } else {
      assert NewPage(p) == (a, q);
    }
  }

  /** The success and out-of-ids branches of `new_page` once a frame is
      acquired: the frame detached by `Acquire` receives a fresh page with the
      next id, or is left detached. */
  lemma NewPageInstalls(p: Pool)
    requires Wf(p) && Acquire(p).0.Ok? && ConsistentButFor(Acquire(p).1, Acquire(p).0.value)
    requires Acquire(p).1.store == p.store
    ensures var (a, w) := Acquire(p);
      var (r, q) := NewPage(p);
      var n := p.store.numPages + 1;
      && (r.Ok? ==>
            && r == a && Consistent(q)
            && q == w.(store := q.store, pageTable := w.pageTable[n := a.value], frames := w.frames[a.value := Some(FreshPage(n))])
            && q.store.pages == p.store.pages && q.store.numPages == n)
      && (r.Err? ==> r.error == OutOfStorage && q == w)
  {
    var (a, w) := Acquire(p);
    var (n, store) := DiskSpec.Allocate(w.store);
    if n.Ok? {
      assert n.value !in w.pageTable;
      InstallConsistent(w, a.value, FreshPage(n.value), store);
      assert NewPage(p) == (Ok(a.value), w.(store := store, pageTable := w.pageTable[n.value := a.value],
                                            frames := w.frames[a.value := Some(FreshPage(n.value))]));
    } else {
      assert NewPage(p) == (Err(OutOfStorage), w);
    }
  }

  /** `fetch_page` from a consistent pool: a hit keeps the pool consistent and
      takes the frame out of the replacer; a successful miss installs the
      store's copy (with its stored dirty flag) and keeps the pool consistent
      under the same proviso as `new_page`, acquiring the frame the same way;
      a miss the store cannot serve loses the acquired frame. On success the
      other slots and the store are untouched. */
  lemma FetchPageConsistent(p: Pool, id: int)
    requires Consistent(p)
    requires id in p.pageTable || |p.freeList| > 0 || CleanCandidates(p)
    ensures Resolves(p, id)
    ensures var (r, q) := FetchPage(p, id);
      && (r.Ok? ==> Consistent(q))
      && (r.Ok? ==> q.frames[r.value].Some? && q.frames[r.value].value.id == id)
      && (r.Ok? && id !in p.pageTable ==>
            q.frames[r.value] == Some(p.store.pages[id].(pinCount := 1)))
      && (r.Ok? && id in p.pageTable ==>
            q.frames[r.value].value.pinCount == p.frames[r.value].value.pinCount + 1
            && !ClockSpec.Tracks(q.clock, r.value))
      && (r.Ok? ==> q.store == p.store)
      && (r.Ok? ==> forall g :: IsFrame(g) && g != r.value ==> q.frames[g] == p.frames[g])
      && (id in p.pageTable ==>
            && q.pageTable == p.pageTable && q.freeList == p.freeList
            && q.clock == ClockSpec.Pin(p.clock, p.pageTable[id]))
      && (r.Ok? && id !in p.pageTable && |p.freeList| > 0 ==>
            && r.value == p.freeList[0] && q.freeList == p.freeList[1..]
            && q.clock == p.clock && q.pageTable == p.pageTable[id := r.value])
      && (r.Ok? && id !in p.pageTable && |p.freeList| == 0 ==>
            && ClockSpec.Victim(p.clock).0 == Some(r.value) && p.frames[r.value].Some?
            && q.freeList == p.freeList && q.clock == ClockSpec.Victim(p.clock).1
            && q.pageTable == (p.pageTable - {p.frames[r.value].value.id})[id := r.value])
      && (r == Err(PoolExhausted) ==> q == p)
      && (r == Err(PageNotFound) ==> id !in p.store.pages && ConsistentButFor(q, Acquire(p).0.value))
  {
    if id in p.pageTable {
      FetchHitConsistent(p, id);
    } else {
      AcquireDetaches(p);
      var (a, q) := Acquire(p);
      if a.Ok? {
        var rd := DiskSpec.Read(q.store, id);
        if rd.Ok? {
          InstallConsistent(q, a.value, rd.value.(pinCount := 1), q.store);
          assert FetchPage(p, id) == (Ok(a.value), q.(pageTable := q.pageTable[id := a.value],
                                                      frames := q.frames[a.value := Some(rd.value.(pinCount := 1))]));
        }
      }
    }
  }

  /** A hit on a consistent pool: the frame holding `id` gets one more pin
      and leaves the replacer; nothing else changes and the pool stays
      consistent. */
  lemma FetchHitConsistent(p: Pool, id: int)
    requires Consistent(p) && id in p.pageTable
    ensures Resolves(p, id)
    ensures var (r, q) := FetchPage(p, id);
      var f := p.pageTable[id];
      && r == Ok(f) && Consistent(q)
      && q.frames[f].Some? && q.frames[f].value.id == id
      && q.frames[f] == Some(p.frames[f].value.(pinCount := p.frames[f].value.pinCount + 1))
      && q.clock == ClockSpec.Pin(p.clock, f) && !ClockSpec.Tracks(q.clock, f)
      && (forall g :: IsFrame(g) && g != f ==> q.frames[g] == p.frames[g])
      && q.pageTable == p.pageTable && q.freeList == p.freeList && q.store == p.store
  {
    var f := p.pageTable[id];
    var q := FetchPage(p, id).1;
    forall g ensures g in ClockSpec.Frames(q.clock.list) <==> Unpinned(q, g) {
    }
  }

  // ---- operations on resident pages ----

  /** `unpin_page` keeps a consistent pool consistent. For a resident page the
      pin count drops by one (never below zero), the frame is offered to the
      replacer exactly when the count is now zero (and is then tracked), and
      the dirty flag is the old flag or-ed with the argument; the page table,
      free list, store and other slots are untouched. A non-resident id
      changes nothing. */
  lemma UnpinPageConsistent(p: Pool, id: int, isDirty: bool)
    requires Consistent(p)
    ensures Resolves(p, id)
    ensures var (r, q) := UnpinPage(p, id, isDirty);
      && Consistent(q)
      && (r.Err? <==> id !in p.pageTable)
      && (r.Err? ==> r.error == PageNotFound && q == p)
      && q.pageTable == p.pageTable && q.freeList == p.freeList && q.store == p.store
      && (r.Ok? ==> var f := p.pageTable[id]; var before := p.frames[f].value;
            var pins := if before.pinCount > 0 then before.pinCount - 1 else 0;
            && q.frames[f] == Some(before.(pinCount := pins, isDirty := before.isDirty || isDirty))
            && q.frames[f].value.id == id
            && q.clock == (if pins == 0 then ClockSpec.Unpin(p.clock, f) else p.clock)
            && (ClockSpec.Tracks(q.clock, f) <==> pins == 0)
            && (forall g :: IsFrame(g) && g != f ==> q.frames[g] == p.frames[g]))
  {
    if id in p.pageTable {
      var f := p.pageTable[id];
      var q := UnpinPage(p, id, isDirty).1;
      forall g ensures g in ClockSpec.Frames(q.clock.list) <==> Unpinned(q, g) {
        if g == f { ClockSpec.TracksIff(p.clock, f); }
      }
      ClockSpec.TracksIff(q.clock, f);
    }
  }

  /** `flush_page` keeps a consistent pool consistent: the resident page is
      stored as it was (dirty flag included) and then marked clean, its pin
      count untouched; the other stored pages, the other slots, the page
      table, free list and replacer are untouched. A non-resident id changes
      nothing. */
  lemma FlushPageConsistent(p: Pool, id: int)
    requires Consistent(p)
    ensures Resolves(p, id)
    ensures var (r, q) := FlushPage(p, id);
      && Consistent(q)
      && (r.Err? <==> id !in p.pageTable)
      && (r.Err? ==> r.error == PageNotFound && q == p)
      && q.pageTable == p.pageTable && q.freeList == p.freeList && q.clock == p.clock
      && (r.Ok? ==> var f := p.pageTable[id];
            && q.store == DiskSpec.Write(p.store, p.frames[f].value)
            && q.store.pages[id] == p.frames[f].value
            && (forall k :: k in p.store.pages && k != id ==> q.store.pages[k] == p.store.pages[k])
            && q.frames[f] == Some(p.frames[f].value.(isDirty := false))
            && (forall g :: IsFrame(g) && g != f ==> q.frames[g] == p.frames[g]))
  {
    if id in p.pageTable {
      var q := FlushPage(p, id).1;
      forall g ensures g in ClockSpec.Frames(q.clock.list) <==> Unpinned(q, g) {
      }
    }
  }

  /** One step of the `flush_all_pages` loop keeps the invariant. */
  lemma FlushStepConsistent(p: Pool, i: nat)
    requires Consistent(p) && i < MAX_POOL_SIZE && p.frames[i].Some?
    ensures var page := p.frames[i].value;
      Consistent(p.(store := DiskSpec.Write(p.store, page), frames := p.frames[i := Some(page.(isDirty := false))]))
  {
    var page := p.frames[i].value;
    var q := p.(store := DiskSpec.Write(p.store, page), frames := p.frames[i := Some(page.(isDirty := false))]);
    forall g ensures g in ClockSpec.Frames(q.clock.list) <==> Unpinned(q, g) {
    }
  }

  lemma {:induction false} FlushFromConsistent(p: Pool, i: nat)
    requires Consistent(p) && i <= MAX_POOL_SIZE
    ensures Consistent(FlushFrom(p, i))
    decreases MAX_POOL_SIZE - i
  {
    if i < MAX_POOL_SIZE {
      if p.frames[i].Some? {
        FlushStepConsistent(p, i);
        var page := p.frames[i].value;
        FlushFromConsistent(p.(store := DiskSpec.Write(p.store, page), frames := p.frames[i := Some(page.(isDirty := false))]), i + 1);
      } else {
        FlushFromConsistent(p, i + 1);
      }
    }
  }

  /** `flush_all_pages` keeps a consistent pool consistent. */
  lemma FlushAllConsistent(p: Pool)
    requires Consistent(p)
    ensures Consistent(FlushAllPages(p))
  {
    FlushFromConsistent(p, 0);
  }

  /** No two occupied slots from `i` on hold the same page id. */
  ghost predicate DistinctIds(p: Pool, i: nat)
    requires Wf(p)
  {
    forall g, h :: i <= g < h < MAX_POOL_SIZE && p.frames[g].Some? && p.frames[h].Some? ==>
      p.frames[g].value.id != p.frames[h].value.id
  }

  /** One pass of the flush loop's body: slot `i`'s page is written and the
      slot marked clean. */
  ghost function FlushSlot(p: Pool, i: nat): (r: Pool)
    requires Wf(p) && i < MAX_POOL_SIZE && p.frames[i].Some?
    ensures Wf(r) && FlushFrom(p, i) == FlushFrom(r, i + 1)
  {
    var page := p.frames[i].value;
    p.(store := DiskSpec.Write(p.store, page), frames := p.frames[i := Some(page.(isDirty := false))])
  }

  /** The ids of the pages in the occupied slots from `i` on. */
  ghost function SlotIds(p: Pool, i: nat): set<int>
    requires Wf(p)
  {
    set g | i <= g < MAX_POOL_SIZE && p.frames[g].Some? :: p.frames[g].value.id
  }

  /** `SlotIds` from slot `i` is slot `i`'s id, if any, and those after it;
      a pool with the same slots from `i` on has the same ids there. */
  lemma SlotIdsStep(p: Pool, p1: Pool, i: nat)
    requires Wf(p) && Wf(p1) && i < MAX_POOL_SIZE
    requires forall g :: i < g < MAX_POOL_SIZE ==> p1.frames[g] == p.frames[g]
    ensures SlotIds(p, i) == (if p.frames[i].Some? then {p.frames[i].value.id} else {}) + SlotIds(p1, i + 1)
  {
  }

  /** The flush loop from slot `i` on keeps every stored id and adds the id
      of every occupied slot it passes, and no other. */
  lemma {:induction false} FlushFromStoresIds(p: Pool, i: nat)
    requires Wf(p) && i <= MAX_POOL_SIZE
    ensures var q := FlushFrom(p, i);
      && q.store.pages.Keys == p.store.pages.Keys + SlotIds(p, i)
      && (forall g :: i <= g < MAX_POOL_SIZE && p.frames[g].Some? ==> p.frames[g].value.id in q.store.pages)
      && (forall k :: k in p.store.pages ==> k in q.store.pages)
    decreases MAX_POOL_SIZE - i
  {
    if i < MAX_POOL_SIZE {
      if p.frames[i].Some? {
        var p1 := FlushSlot(p, i);
        FlushFromStoresIds(p1, i + 1);
        assert p.frames[i].value.id in p1.store.pages;
        assert forall g :: i < g < MAX_POOL_SIZE ==> p1.frames[g] == p.frames[g];
        SlotIdsStep(p, p1, i);
      } else {
        FlushFromStoresIds(p, i + 1);
        SlotIdsStep(p, p, i);
      }
    } else {
      assert SlotIds(p, i) == {};
    }
  }

  /** The flush loop from slot `i` on leaves the stored copy of any id that
      no occupied slot from `i` on holds as it was. */
  lemma {:induction false} FlushFromKeeps(p: Pool, i: nat, k: int)
    requires Wf(p) && i <= MAX_POOL_SIZE && k in p.store.pages
    requires forall g :: i <= g < MAX_POOL_SIZE && p.frames[g].Some? ==> p.frames[g].value.id != k
    ensures k in FlushFrom(p, i).store.pages && FlushFrom(p, i).store.pages[k] == p.store.pages[k]
    decreases MAX_POOL_SIZE - i
  {
    if i < MAX_POOL_SIZE {
      if p.frames[i].Some? {
        var p1 := FlushSlot(p, i);
        assert p1.store.pages[k] == p.store.pages[k];
        assert forall g :: i < g < MAX_POOL_SIZE ==> p1.frames[g] == p.frames[g];
        FlushFromKeeps(p1, i + 1, k);
      } else {
        FlushFromKeeps(p, i + 1, k);
      }
    }
  }

  /** When no two occupied slots from `i` on share an id, the loop leaves
      each slot's page in the store exactly as it was before the loop. */
  lemma {:induction false} FlushFromStores(p: Pool, i: nat, g: nat)
    requires Wf(p) && i <= g < MAX_POOL_SIZE && DistinctIds(p, i) && p.frames[g].Some?
    ensures var q := FlushFrom(p, i);
      p.frames[g].value.id in q.store.pages && q.store.pages[p.frames[g].value.id] == p.frames[g].value
    decreases MAX_POOL_SIZE - i
  {
    if p.frames[i].Some? {
      var p1 := FlushSlot(p, i);
      assert forall h :: i < h < MAX_POOL_SIZE ==> p1.frames[h] == p.frames[h];
      if g == i {
        FlushFromKeeps(p1, i + 1, p.frames[i].value.id);
      } else {
        assert DistinctIds(p1, i + 1);
        FlushFromStores(p1, i + 1, g);
      }
    } else {
      FlushFromStores(p, i + 1, g);
    }
  }

  /** In a consistent pool every occupied slot holds a different page. */
  lemma ConsistentDistinctIds(p: Pool)
    requires Consistent(p)
    ensures DistinctIds(p, 0)
  {
    forall g, h | 0 <= g < h < MAX_POOL_SIZE && p.frames[g].Some? && p.frames[h].Some?
      ensures p.frames[g].value.id != p.frames[h].value.id
    {
      assert p.pageTable[p.frames[g].value.id] == g && p.pageTable[p.frames[h].value.id] == h;
    }
  }

  /** After `flush_all_pages` every occupied slot holds its page, now clean;
      the free list, page table and replacer are unchanged; the stored ids
      are the old ones plus those of the occupied slots. In a consistent
      pool the store then holds each resident page as it was before the
      flush, and every id not resident keeps its stored copy. */
  lemma FlushAllEffect(p: Pool)
    requires Wf(p)
    ensures var q := FlushAllPages(p);
      && q.freeList == p.freeList && q.pageTable == p.pageTable && q.clock == p.clock
      && (forall g :: 0 <= g < MAX_POOL_SIZE ==>
            q.frames[g] == if p.frames[g].Some? then Some(p.frames[g].value.(isDirty := false)) else None)
      && q.store.numPages == p.store.numPages
      && q.store.pages.Keys == p.store.pages.Keys + SlotIds(p, 0)
      && (forall g :: 0 <= g < MAX_POOL_SIZE && p.frames[g].Some? ==> p.frames[g].value.id in q.store.pages)
      && (Consistent(p) ==> forall k :: k in p.store.pages && k !in p.pageTable ==>
            q.store.pages[k] == p.store.pages[k])
      && (Consistent(p) ==> forall g :: 0 <= g < MAX_POOL_SIZE && p.frames[g].Some? ==>
            q.store.pages[p.frames[g].value.id] == p.frames[g].value)
  {
    FlushFromStoresIds(p, 0);
    if Consistent(p) {
      ConsistentDistinctIds(p);
      forall k | k in p.store.pages && k !in p.pageTable
        ensures FlushAllPages(p).store.pages[k] == p.store.pages[k]
      {
        FlushFromKeeps(p, 0, k);
      }
      forall g | 0 <= g < MAX_POOL_SIZE && p.frames[g].Some?
        ensures FlushAllPages(p).store.pages[p.frames[g].value.id] == p.frames[g].value
      {
        FlushFromStores(p, 0, g);
      }
    }
  }

  /** `delete_page` refuses a pinned page and a non-resident id, changing
      nothing. Otherwise the id leaves the page table, the store and (through
      its frame) the replacer, and the frame joins the free list; but the slot
      keeps the deleted page, so the pool is consistent only once that slot
      is regarded as empty. */
  lemma DeletePageEffect(p: Pool, id: int)
    requires Consistent(p)
    ensures Resolves(p, id)
    ensures var (r, q) := DeletePage(p, id);
      && (r == Err(PageNotFound) <==> id !in p.pageTable)
      && (r == Err(PageStillInUse) <==> id in p.pageTable && p.frames[p.pageTable[id]].value.pinCount > 0)
      && (r.Err? ==> q == p)
      && (r.Ok? ==> var f := p.pageTable[id];
            && q.pageTable == p.pageTable - {id}
            && q.store == DiskSpec.Deallocate(p.store, id) && id !in q.store.pages
            && q.freeList == p.freeList + [f]
            && q.clock == ClockSpec.Pin(p.clock, f) && !ClockSpec.Tracks(q.clock, f)
            && q.frames == p.frames && q.frames[f].Some? && q.frames[f].value.id == id
            && Consistent(q.(frames := q.frames[f := None])))
  {
    if id in p.pageTable && p.frames[p.pageTable[id]].value.pinCount == 0 {
      var f := p.pageTable[id];
      var q := DeletePage(p, id).1;
      var cleared := q.(frames := q.frames[f := None]);
      assert f !in p.freeList;
      forall x ensures x in cleared.freeList <==> IsFrame(x) && cleared.frames[x].None? {
        assert x in cleared.freeList <==> x in p.freeList || x == f;
      }
      forall i, j | 0 <= i < j < |cleared.freeList| ensures cleared.freeList[i] != cleared.freeList[j] {
        if j == |p.freeList| { assert cleared.freeList[i] in p.freeList; }
      }
      forall g ensures g in ClockSpec.Frames(cleared.clock.list) <==> Unpinned(cleared, g) {
      }
      forall k | k in cleared.pageTable
        ensures cleared.frames[cleared.pageTable[k]].Some? && cleared.frames[cleared.pageTable[k]].value.id == k
      {
        assert p.pageTable[k] != f;
      }
    }
  }

  /** A deleted page is gone from the store, but its slot still holds it, so
      `flush_all_pages` writes it back: the id is in the store again. */
  lemma FlushAllResurrectsDeleted(p: Pool, id: int)
    requires Consistent(p) && id in p.pageTable && p.frames[p.pageTable[id]].value.pinCount == 0
    ensures Resolves(p, id)
    ensures var (r, q) := DeletePage(p, id);
      r == Ok(()) && id !in q.store.pages && id in FlushAllPages(q).store.pages
  {
    DeletePageEffect(p, id);
    var q := DeletePage(p, id).1;
    FlushFromStoresIds(q, 0);
    assert q.frames[p.pageTable[id]].value.id == id;
  }

  // ---- eviction ----

  /** The frame `get_frame_id` hands out is safe to reuse in a consistent
      pool: a free-list frame is empty, a replacer victim holds an unpinned
      page. With no free frame and no unpinned page it fails with
      `PoolExhausted` and changes nothing. */
  lemma GetFrameIdSafe(p: Pool)
    requires Consistent(p)
    ensures var (a, q) := GetFrameId(p);
      && (a.Ok? && a.value.fromFreeList ==> IsFrame(a.value.frame) && p.frames[a.value.frame].None?)
      && (a.Ok? && !a.value.fromFreeList ==> Unpinned(p, a.value.frame))
      && (a.Err? <==> |p.freeList| == 0 && forall f :: IsFrame(f) ==> !Unpinned(p, f))
      && (a.Err? ==> a.error == PoolExhausted && q == p)
  {
    if |p.freeList| == 0 {
      var (v, clock) := ClockSpec.Victim(p.clock);
      if v.None? {
        assert p.clock.list == [];
        assert forall f :: IsFrame(f) ==> !Unpinned(p, f) by {
          forall f | IsFrame(f) ensures !Unpinned(p, f) {
            assert f !in ClockSpec.Frames(p.clock.list);
          }
        }
      } else {
        assert v.value in ClockSpec.Frames(p.clock.list);
      }
    } else {
      assert p.freeList[0] in p.freeList;
    }
  }

  /** With every frame occupied by a pinned page, `new_page` and a
      `fetch_page` miss both fail with `PoolExhausted` and change nothing. */
  lemma AllPinnedExhausts(p: Pool, id: int)
    requires Consistent(p)
    requires forall f :: IsFrame(f) ==> p.frames[f].Some? && p.frames[f].value.pinCount > 0
    requires id !in p.pageTable
    ensures NewPage(p) == (Err(PoolExhausted), p)
    ensures FetchPage(p, id) == (Err(PoolExhausted), p)
  {
    if |p.freeList| > 0 {
      assert p.freeList[0] in p.freeList;
    }
    GetFrameIdSafe(p);
  }

  /** A dirty victim is written to the store but keeps its page-table entry
      while its slot is emptied. Once `new_page` reuses the frame, the old id
      still leads to that frame, which now holds a different page, so the
      intended invariant is broken, and fetching the old id pins the new page
      instead of reading the stored copy back. */
  lemma DirtyVictimLeavesStaleEntry(p: Pool, f: int)
    requires Consistent(p) && |p.freeList| == 0
    requires ClockSpec.Victim(p.clock).0 == Some(f)
    requires p.frames[f].Some? && p.frames[f].value.isDirty
    ensures var page := p.frames[f].value;
      && var (a, q) := Acquire(p);
      && a == Ok(f) && q.frames[f].None?
      && page.id in q.pageTable && q.pageTable[page.id] == f
      && page.id in q.store.pages && q.store.pages[page.id] == page
    ensures var page := p.frames[f].value;
      && var (r, q) := NewPage(p);
      && (r.Ok? ==>
            && r.value == f && page.id in q.pageTable && q.pageTable[page.id] == f
            && q.frames[f].Some? && q.frames[f].value.id != page.id
            && !Consistent(q)
            && Resolves(q, page.id)
            && FetchPage(q, page.id).0 == Ok(f))
  {
    var page := p.frames[f].value;
    assert f in ClockSpec.Frames(p.clock.list);
    var (r, q) := NewPage(p);
    if r.Ok? {
      assert q.frames[f].value.id == p.store.numPages + 1;
    }
  }

  /** When the store has minted its last id, `new_page` still takes a frame
      off the free list before failing with `OutOfStorage`, and never gives it
      back: one frame fewer is free or occupied. */
  lemma OutOfStorageLeaksFrame(p: Pool)
    requires Consistent(p) && |p.freeList| > 0 && p.store.numPages >= MAX_NUM_DISK_PAGES
    ensures var (r, q) := NewPage(p);
      && r == Err(OutOfStorage)
      && |q.freeList| == |p.freeList| - 1 && Occupied(q) == Occupied(p)
      && |q.freeList| + |Occupied(q)| == MAX_POOL_SIZE - 1
  {
    Capacity(p);
    var q := NewPage(p).1;
    assert q == p.(freeList := p.freeList[1..]);
    assert Occupied(q) == Occupied(p);
  }
}
