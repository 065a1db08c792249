// Pages: the page record, the crate's size constants and its error enum.

module Pages {

  /** Number of frame slots in a buffer pool. */
  const MAX_POOL_SIZE: nat := 4
  /** Ceiling on the number of page ids the store mints. */
  const MAX_NUM_DISK_PAGES: int := 15
  /** Bytes in one page. */
  const PAGE_SIZE: nat := 8

  newtype u8 = x: int | 0 <= x < 256

  /** A page as held by a frame or by the store. `id` is only ever set at construction. */
  datatype Page = Page(id: int, pinCount: nat, isDirty: bool, data: seq<u8>)

  datatype PageError = PageNotFound | PageStillInUse | PoolExhausted | OutOfStorage

  datatype Option<T> = None | Some(value: T)

  datatype Result<T> = Ok(value: T) | Err(error: PageError)

  /** `Page::new`: a page with the given id, pinned once, clean and zero-filled. */
  function FreshPage(id: int): (p: Page)
    ensures p.id == id && p.pinCount == 1 && !p.isDirty
    ensures |p.data| == PAGE_SIZE && forall i :: 0 <= i < |p.data| ==> p.data[i] == 0
  {
    Page(id, 1, false, seq(PAGE_SIZE, _ => 0))
  }

  /** `Page::dec_pin_count`: drops the pin count unless it is already zero and
      reports whether the page is now unpinned. */
  function DecPinCount(p: Page): (r: (Page, bool))
    ensures r.0.id == p.id && r.0.isDirty == p.isDirty && r.0.data == p.data
    ensures p.pinCount > 0 ==> r.0.pinCount + 1 == p.pinCount
    ensures p.pinCount == 0 ==> r.0.pinCount == 0
    ensures r.1 <==> r.0.pinCount == 0
  {
    var q := if p.pinCount > 0 then p.(pinCount := p.pinCount - 1) else p;
    (q, q.pinCount == 0)
  }

  /** A page that was already unpinned reports "unpinned" again: the caller
      re-offers its frame to the replacer, which ignores the duplicate. */
  lemma DecPinCountAtZero(p: Page)
    requires p.pinCount == 0
    ensures DecPinCount(p) == (p, true)
  {
  }
}
