// BufferPool: the `BufferPoolManager` object. Its frame slots are an array
// updated in place; its free list and page table are fields the methods
// reassign; it owns a `ClockReplacer` and a `DiskManagerMock`. Every method is
// proved to do exactly what the matching function of PoolSpec does to the
// abstract pool, and the properties of those functions are in PoolProperties.
// A page is handed back as the frame that holds it.

module BufferPool {

  import opened Pages
  import opened PoolSpec
  import ClockSpec
  import DiskSpec
  import Replacer
  import DiskManager

  class BufferPoolManager {
    const disk: DiskManager.DiskManagerMock
    const replacer: Replacer.ClockReplacer
    const pages: array<Option<Page>>
    var freeList: seq<int>
    var pageTable: map<int, int>

    /** The manager as a PoolSpec value. */
    ghost function Abstract(): Pool
      reads this, pages, replacer, disk
    {
      Pool(pages[..], freeList, pageTable, replacer.State(), disk.State())
    }

    ghost predicate Valid()
      reads this, pages, replacer, disk
    {
      pages.Length == MAX_POOL_SIZE && Wf(Abstract())
    }

    /** `BufferPoolManager::new`: empty slots, frames 0..3 queued as free. */
    constructor (disk: DiskManager.DiskManagerMock)
      requires disk.Valid()
      ensures this.disk == disk && fresh(pages) && fresh(replacer)
      ensures Valid() && Abstract() == Init(disk.State())
    {
      this.disk := disk;
      replacer := new Replacer.ClockReplacer();
      pages := new Option<Page>[MAX_POOL_SIZE](_ => None);
      pageTable := map[];
      freeList := [];
      new;
      for i := 0 to MAX_POOL_SIZE
        invariant freeList == seq(i, j => j)
        invariant pageTable == map[] && replacer.State() == ClockSpec.Empty && pages[..] == seq(MAX_POOL_SIZE, _ => None)
      {
        freeList := freeList + [i];
      }
    }

    /** `get_frame_id`: the free-list head, else the replacer's victim. */
    method GetFrameId() returns (r: Result<Acquired>)
      requires Valid()
      modifies this, replacer
      ensures Valid()
      ensures (r, Abstract()) == PoolSpec.GetFrameId(old(Abstract()))
    {
      if |freeList| > 0 {
        var f := freeList[0];
        freeList := freeList[1..];
        return Ok(Acquired(f, true));
      }
      var v := replacer.Victim();
      if v.Some? {
        return Ok(Acquired(v.value, false));
      }
      return Err(PoolExhausted);
    }

    /** `write_if_dirty`: empties slot `f`; a dirty occupant goes to the
        store, a clean one leaves the page table. */
    method WriteIfDirty(f: int)
      requires Valid() && IsFrame(f)
      modifies this, pages, disk
      ensures Valid()
      ensures Abstract() == PoolSpec.WriteIfDirty(old(Abstract()), f)
    {
      var existing := pages[f];
      pages[f] := None;
      if existing.Some? {
        if existing.value.isDirty {
          disk.WritePage(existing.value);
          return;
        }
        pageTable := pageTable - {existing.value.id};
      }
    }

    method NewPage() returns (r: Result<int>)
      requires Valid()
      modifies this, pages, replacer, disk
      ensures Valid()
      ensures (r, Abstract()) == PoolSpec.NewPage(old(Abstract()))
    {
      var g := GetFrameId();
      if g.Err? {
        return Err(g.error);
      }
      var f := g.value.frame;
      if !g.value.fromFreeList {
        WriteIfDirty(f);
      }
      var n := disk.AllocatePage();
      if n.Err? {
        return Err(n.error);
      }
      pageTable := pageTable[n.value := f];
      pages[f] := Some(FreshPage(n.value));
      return Ok(f);
    }

    method FetchPage(id: int) returns (r: Result<int>)
      requires Valid() && Resolves(Abstract(), id)
      modifies this, pages, replacer, disk
      ensures Valid()
      ensures (r, Abstract()) == PoolSpec.FetchPage(old(Abstract()), id)
    {
      if id in pageTable {
        var f := pageTable[id];
        var page := pages[f].value;
        pages[f] := Some(page.(pinCount := page.pinCount + 1));
        replacer.Pin(f);
        return Ok(f);
      }
      var g := GetFrameId();
      if g.Err? {
        return Err(g.error);
      }
      var f := g.value.frame;
      if !g.value.fromFreeList {
        WriteIfDirty(f);
      }
      var read := disk.ReadPage(id);
      if read.Err? {
        return Err(read.error);
      }
      pageTable := pageTable[id := f];
      pages[f] := Some(read.value.(pinCount := 1));
      return Ok(f);
    }

    method UnpinPage(id: int, isDirty: bool) returns (r: Result<()>)
      requires Valid() && Resolves(Abstract(), id)
      modifies this, pages, replacer
      ensures Valid()
      ensures (r, Abstract()) == PoolSpec.UnpinPage(old(Abstract()), id, isDirty)
    {
      if id !in pageTable {
        return Err(PageNotFound);
      }
      var f := pageTable[id];
      var (page, unpinned) := DecPinCount(pages[f].value);
      if unpinned {
        replacer.Unpin(f);
      }
      pages[f] := Some(page.(isDirty := page.isDirty || isDirty));
      return Ok(());
    }

    method FlushPage(id: int) returns (r: Result<()>)
      requires Valid() && Resolves(Abstract(), id)
      modifies pages, disk
      ensures Valid()
      ensures (r, Abstract()) == PoolSpec.FlushPage(old(Abstract()), id)
    {
      if id !in pageTable {
        return Err(PageNotFound);
      }
      var f := pageTable[id];
      var page := pages[f].value;
      disk.WritePage(page);
      pages[f] := Some(page.(isDirty := false));
      return Ok(());
    }

    method FlushAllPages() returns (r: Result<()>)
      requires Valid()
      modifies pages, disk
      ensures Valid()
      ensures r == Ok(()) && Abstract() == PoolSpec.FlushAllPages(old(Abstract()))
    {
      for i := 0 to MAX_POOL_SIZE
        invariant Valid()
        invariant FlushFrom(Abstract(), i) == FlushFrom(old(Abstract()), 0)
      {
        var slot := pages[i];
        if slot.Some? {
          disk.WritePage(slot.value);
          pages[i] := Some(slot.value.(isDirty := false));
        }
      }
      return Ok(());
    }

    method DeletePage(id: int) returns (r: Result<()>)
      requires Valid() && Resolves(Abstract(), id)
      modifies this, replacer, disk
      ensures Valid()
      ensures (r, Abstract()) == PoolSpec.DeletePage(old(Abstract()), id)
    {
      if id !in pageTable {
        return Err(PageNotFound);
      }
      var f := pageTable[id];
      if pages[f].value.pinCount > 0 {
        return Err(PageStillInUse);
      }
      replacer.Pin(f);
      disk.DeallocatePage(id);
      freeList := freeList + [f];
      pageTable := pageTable - {id};
      return Ok(());
    }
  }
}
