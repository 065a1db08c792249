// PoolSpec: the buffer pool manager as a value. Each operation of
// `BufferPoolManager` is a function from the old pool to its result and the
// new pool, following the source branch by branch; the class in module
// BufferPool is proved against these functions.

module PoolSpec {

  import opened Pages
  import ClockSpec
  import DiskSpec

  /** Frame slots, FIFO free list, page table, replacer and store. */
  datatype Pool = Pool(
    frames: seq<Option<Page>>,
    freeList: seq<int>,
    pageTable: map<int, int>,
    clock: ClockSpec.Clock,
    store: DiskSpec.Store)

  /** What `get_frame_id` hands back: a frame, and whether it came off the free list. */
  datatype Acquired = Acquired(frame: int, fromFreeList: bool)

  predicate IsFrame(f: int)
  {
    0 <= f < MAX_POOL_SIZE
  }

  /** Every frame id the pool stores indexes a slot, so no operation can index
      out of bounds; the replacer and the store keep their own invariants. */
  predicate Wf(p: Pool)
  {
    && |p.frames| == MAX_POOL_SIZE
    && (forall i :: 0 <= i < |p.freeList| ==> IsFrame(p.freeList[i]))
    && (forall id :: id in p.pageTable ==> IsFrame(p.pageTable[id]))
    && ClockSpec.Wf(p.clock)
    && (forall i :: 0 <= i < |p.clock.list| ==> IsFrame(p.clock.list[i].frame))
    && DiskSpec.Wf(p.store)
  }

  /** The source panics ("not possible!") when a page-table entry leads to an
      empty slot; its callers must not reach that state. */
  predicate Resolves(p: Pool, id: int)
    requires Wf(p)
  {
    id in p.pageTable ==> p.frames[p.pageTable[id]].Some?
  }

  /** `BufferPoolManager::new`: all slots empty, frames 0..3 free in order. */
  function Init(store: DiskSpec.Store): (p: Pool)
    requires DiskSpec.Wf(store)
    ensures Wf(p)
  {
    Pool(seq(MAX_POOL_SIZE, _ => None), seq(MAX_POOL_SIZE, i => i), map[], ClockSpec.Empty, store)
  }

  /** `get_frame_id`: the free-list head if there is one, else the replacer's
      victim, else `PoolExhausted`. */
  function GetFrameId(p: Pool): (r: (Result<Acquired>, Pool))
    requires Wf(p)
    ensures Wf(r.1)
    ensures r.0.Ok? ==> IsFrame(r.0.value.frame)
  {
    if |p.freeList| > 0 then
      (Ok(Acquired(p.freeList[0], true)), p.(freeList := p.freeList[1..]))
    else
      var (v, clock) := ClockSpec.Victim(p.clock);
      var q := p.(clock := clock);
      if v.Some? then (Ok(Acquired(v.value, false)), q) else (Err(PoolExhausted), q)
  }

  /** `write_if_dirty`: empties the slot; a dirty occupant is written to the
      store and keeps its page-table entry, a clean one loses it. */
  function WriteIfDirty(p: Pool, f: int): (r: Pool)
    requires Wf(p) && IsFrame(f)
    ensures Wf(r)
  {
    var q := p.(frames := p.frames[f := None]);
    match p.frames[f]
    case None => q
    case Some(page) =>
      if page.isDirty then q.(store := DiskSpec.Write(q.store, page))
      else q.(pageTable := q.pageTable - {page.id})
  }

  /** The frame acquisition shared by `new_page` and `fetch_page` on a miss:
      `get_frame_id`, then `write_if_dirty` for a victim frame. */
  function Acquire(p: Pool): (r: (Result<int>, Pool))
    requires Wf(p)
    ensures Wf(r.1)
    ensures r.0.Ok? ==> IsFrame(r.0.value)
  {
    var (g, p1) := GetFrameId(p);
    match g
    case Err(e) => (Err(e), p1)
    case Ok(acq) =>
      (Ok(acq.frame), if acq.fromFreeList then p1 else WriteIfDirty(p1, acq.frame))
  }

  /** `new_page`: a fresh page id from the store in an acquired frame; the
      result is the frame holding it. */
  function NewPage(p: Pool): (r: (Result<int>, Pool))
    requires Wf(p)
    ensures Wf(r.1)
    ensures r.0.Ok? ==> IsFrame(r.0.value)
  {
    var (a, p1) := Acquire(p);
    match a
    case Err(e) => (Err(e), p1)
    case Ok(f) =>
      var (n, store) := DiskSpec.Allocate(p1.store);
      var p2 := p1.(store := store);
      match n
      case Err(e) => (Err(e), p2)
      case Ok(id) =>
        (Ok(f), p2.(pageTable := p2.pageTable[id := f], frames := p2.frames[f := Some(FreshPage(id))]))
  }

  /** `fetch_page`: a resident page gets one more pin and leaves the replacer;
      otherwise the store's copy is installed in an acquired frame with pin
      count 1. The result is the frame holding the page. */
  function FetchPage(p: Pool, id: int): (r: (Result<int>, Pool))
    requires Wf(p) && Resolves(p, id)
    ensures Wf(r.1)
    ensures r.0.Ok? ==> IsFrame(r.0.value)
    ensures r.0.Ok? ==> id in r.1.pageTable && r.1.pageTable[id] == r.0.value
    ensures id in p.pageTable ==>
      var f := p.pageTable[id];
      && r.0 == Ok(f) && r.1.pageTable == p.pageTable
      && r.1.freeList == p.freeList && r.1.store == p.store
      && r.1.frames[f] == Some(p.frames[f].value.(pinCount := p.frames[f].value.pinCount + 1))
      && (forall g :: IsFrame(g) && g != f ==> r.1.frames[g] == p.frames[g])
      && r.1.clock == ClockSpec.Pin(p.clock, f) && !ClockSpec.Tracks(r.1.clock, f)
    ensures r.0.Ok? && id !in p.pageTable ==>
      r.1.frames[r.0.value].Some? && r.1.frames[r.0.value].value.id == id
      && r.1.frames[r.0.value].value.pinCount == 1
    ensures r.0.Err? ==> id !in p.pageTable && r.1.pageTable.Keys <= p.pageTable.Keys
  {
    if id in p.pageTable then
      var f := p.pageTable[id];
      var page := p.frames[f].value;
      (Ok(f), p.(frames := p.frames[f := Some(page.(pinCount := page.pinCount + 1))],
                 clock := ClockSpec.Pin(p.clock, f)))
    else
      var (a, p1) := Acquire(p);
      match a
      case Err(e) => (Err(e), p1)
      case Ok(f) =>
        match DiskSpec.Read(p1.store, id)
        case Err(e) => (Err(e), p1)
        case Ok(page) =>
          (Ok(f), p1.(pageTable := p1.pageTable[id := f], frames := p1.frames[f := Some(page.(pinCount := 1))]))
  }

  /** `unpin_page`: one pin less; at zero the frame is offered to the
      replacer; the dirty flag is or-ed in, never cleared. */
  function UnpinPage(p: Pool, id: int, isDirty: bool): (r: (Result<()>, Pool))
    requires Wf(p) && Resolves(p, id)
    ensures Wf(r.1)
    ensures r.0.Err? <==> id !in p.pageTable
    ensures r.0.Err? ==> r.0.error == PageNotFound && r.1 == p
    ensures r.1.freeList == p.freeList && r.1.pageTable == p.pageTable && r.1.store == p.store
    ensures forall g :: IsFrame(g) && (id !in p.pageTable || g != p.pageTable[id]) ==> r.1.frames[g] == p.frames[g]
    ensures id in p.pageTable ==>
      var f := p.pageTable[id];
      var before := p.frames[f].value;
      var pins := if before.pinCount > 0 then before.pinCount - 1 else 0;
      && r.1.frames[f] == Some(before.(pinCount := pins, isDirty := before.isDirty || isDirty))
      && r.1.clock == if pins == 0 then ClockSpec.Unpin(p.clock, f) else p.clock
  {
    if id in p.pageTable then
      var f := p.pageTable[id];
      var (page, unpinned) := DecPinCount(p.frames[f].value);
      var clock := if unpinned then ClockSpec.Unpin(p.clock, f) else p.clock;
      (Ok(()), p.(frames := p.frames[f := Some(page.(isDirty := page.isDirty || isDirty))], clock := clock))
    else (Err(PageNotFound), p)
  }

  /** `flush_page`: writes the resident page to the store, then marks it clean. */
  function FlushPage(p: Pool, id: int): (r: (Result<()>, Pool))
    requires Wf(p) && Resolves(p, id)
    ensures Wf(r.1)
    ensures r.0.Err? <==> id !in p.pageTable
    ensures r.0.Err? ==> r.0.error == PageNotFound && r.1 == p
    ensures r.1.freeList == p.freeList && r.1.pageTable == p.pageTable && r.1.clock == p.clock
    ensures forall g :: IsFrame(g) && (id !in p.pageTable || g != p.pageTable[id]) ==> r.1.frames[g] == p.frames[g]
    ensures id in p.pageTable ==>
      var page := p.frames[p.pageTable[id]].value;
      && r.1.frames[p.pageTable[id]] == Some(page.(isDirty := false))
      && r.1.store.numPages == p.store.numPages
      && r.1.store.pages.Keys == p.store.pages.Keys + {page.id}
      && r.1.store.pages[page.id] == page
      && (forall k :: k in p.store.pages && k != page.id ==> r.1.store.pages[k] == p.store.pages[k])
  {
    if id in p.pageTable then
      var f := p.pageTable[id];
      var page := p.frames[f].value;
      (Ok(()), p.(store := DiskSpec.Write(p.store, page), frames := p.frames[f := Some(page.(isDirty := false))]))
    else (Err(PageNotFound), p)
  }

  /** The loop of `flush_all_pages` from slot `i` on: it leaves the free
      list, page table, replacer and counter alone and the slots before `i`
      as they were; every occupied slot from `i` on keeps its page with the
      flag cleared. */
  function FlushFrom(p: Pool, i: nat): (r: Pool)
    requires Wf(p) && i <= MAX_POOL_SIZE
    ensures Wf(r)
    ensures r.freeList == p.freeList && r.pageTable == p.pageTable && r.clock == p.clock
    ensures r.store.numPages == p.store.numPages
    ensures forall g :: 0 <= g < i ==> r.frames[g] == p.frames[g]
    ensures forall g :: i <= g < MAX_POOL_SIZE ==>
      r.frames[g] == if p.frames[g].Some? then Some(p.frames[g].value.(isDirty := false)) else None
    decreases MAX_POOL_SIZE - i
  {
    if i == MAX_POOL_SIZE then p
    else match p.frames[i]
      case None => FlushFrom(p, i + 1)
      case Some(page) =>
        FlushFrom(p.(store := DiskSpec.Write(p.store, page), frames := p.frames[i := Some(page.(isDirty := false))]), i + 1)
  }

  /** `flush_all_pages`: every occupied slot, in frame order, is written and marked clean. */
  function FlushAllPages(p: Pool): (r: Pool)
    requires Wf(p)
    ensures Wf(r)
    ensures r.freeList == p.freeList && r.pageTable == p.pageTable && r.clock == p.clock
    ensures r.store.numPages == p.store.numPages
    ensures forall g :: IsFrame(g) ==>
      r.frames[g] == if p.frames[g].Some? then Some(p.frames[g].value.(isDirty := false)) else None
  {
    FlushFrom(p, 0)
  }

  /** `delete_page`: an unpinned resident page leaves the replacer, the store
      and the page table, and its frame joins the free list. The slot itself
      is not emptied. */
  function DeletePage(p: Pool, id: int): (r: (Result<()>, Pool))
    requires Wf(p) && Resolves(p, id)
    ensures Wf(r.1)
    ensures r.0 == Err(PageNotFound) <==> id !in p.pageTable
    ensures r.0 == Err(PageStillInUse) <==> id in p.pageTable && p.frames[p.pageTable[id]].value.pinCount > 0
    ensures r.0.Err? ==> r.1 == p
    ensures r.1.frames == p.frames
    ensures r.0.Ok? ==>
      var f := p.pageTable[id];
      && r.1.pageTable == p.pageTable - {id} && r.1.freeList == p.freeList + [f]
      && r.1.store.numPages == p.store.numPages && r.1.store.pages.Keys == p.store.pages.Keys - {id}
      && (forall k :: k in r.1.store.pages ==> r.1.store.pages[k] == p.store.pages[k])
      && ClockSpec.Frames(r.1.clock.list) == ClockSpec.Frames(p.clock.list) - {f}
  {
    if id in p.pageTable then
      var f := p.pageTable[id];
      if p.frames[f].value.pinCount > 0 then (Err(PageStillInUse), p)
      else
        (Ok(()), p.(clock := ClockSpec.Pin(p.clock, f),
                    store := DiskSpec.Deallocate(p.store, id),
                    freeList := p.freeList + [f],
                    pageTable := p.pageTable - {id}))
    else (Err(PageNotFound), p)
  }
}
