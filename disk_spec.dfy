// DiskSpec: the in-memory page store as a value, the specification the
// `DiskManagerMock` class (module DiskManager) is proved against.

module DiskSpec {

  import opened Pages

  /** `num_pages` (ids minted so far) and the map of stored pages. */
  datatype Store = Store(numPages: int, pages: map<int, Page>)

  const Empty: Store := Store(0, map[])

  /** The counter stays within the ceiling and every page is stored under its own id. */
  predicate Wf(s: Store)
  {
    && 0 <= s.numPages <= MAX_NUM_DISK_PAGES
    && forall k :: k in s.pages ==> s.pages[k].id == k
  }

  /** `read_page`: the stored copy, or `PageNotFound`. */
  function Read(s: Store, id: int): (r: Result<Page>)
    requires Wf(s)
    ensures r.Err? <==> id !in s.pages
    ensures r.Err? ==> r.error == PageNotFound
    ensures r.Ok? ==> r.value == s.pages[id] && r.value.id == id
  {
    if id in s.pages then Ok(s.pages[id]) else Err(PageNotFound)
  }

  /** `write_page`: stores a copy of the page under its id, replacing any older copy. */
  function Write(s: Store, p: Page): (r: Store)
    requires Wf(s)
    ensures Wf(r) && r.numPages == s.numPages
    ensures r.pages.Keys == s.pages.Keys + {p.id}
    ensures r.pages[p.id] == p
    ensures forall k :: k in s.pages && k != p.id ==> r.pages[k] == s.pages[k]
  {
    s.(pages := s.pages[p.id := p])
  }

  /** `allocate_page`: mints the next id, or fails once the ceiling is reached. */
  function Allocate(s: Store): (r: (Result<int>, Store))
    requires Wf(s)
    ensures Wf(r.1) && r.1.pages == s.pages
    ensures r.0.Err? <==> s.numPages >= MAX_NUM_DISK_PAGES
    ensures r.0.Err? ==> r.0.error == OutOfStorage && r.1 == s
    ensures r.0.Ok? ==> r.0.value == r.1.numPages == s.numPages + 1
  {
    if s.numPages >= MAX_NUM_DISK_PAGES then (Err(OutOfStorage), s)
    else var t := s.(numPages := s.numPages + 1); (Ok(t.numPages), t)
  }

  /** `deallocate_page`: forgets the stored copy; the counter is not lowered. */
  function Deallocate(s: Store, id: int): (r: Store)
    requires Wf(s)
    ensures Wf(r) && r.numPages == s.numPages
    ensures r.pages.Keys == s.pages.Keys - {id}
    ensures forall k :: k in r.pages ==> r.pages[k] == s.pages[k]
  {
    s.(pages := s.pages - {id})
  }

  /** Reading back what was just written yields the written page. */
  lemma ReadAfterWrite(s: Store, p: Page)
    requires Wf(s)
    ensures Read(Write(s, p), p.id) == Ok(p)
  {
  }

  /** A later write of the same id overwrites the earlier one. */
  lemma WriteOverwrites(s: Store, p: Page, q: Page)
    requires Wf(s) && p.id == q.id
    ensures Write(Write(s, p), q) == Write(s, q)
  {
  }

  /** A deallocated id reads as not found, and deallocating again changes nothing. */
  lemma DeallocateForgets(s: Store, id: int)
    requires Wf(s)
    ensures Read(Deallocate(s, id), id) == Err(PageNotFound)
    ensures Deallocate(Deallocate(s, id), id) == Deallocate(s, id)
  {
  }

  /** The results of `k` successive allocations. */
  function AllocateMany(s: Store, k: nat): (r: (seq<Result<int>>, Store))
    requires Wf(s)
    ensures |r.0| == k && Wf(r.1) && r.1.pages == s.pages
    decreases k
  {
    if k == 0 then ([], s)
    else
      var (a, s1) := Allocate(s);
      var (rest, s2) := AllocateMany(s1, k - 1);
      ([a] + rest, s2)
  }

  /** The i-th allocation (from 0) returns id numPages + i + 1 while that is
      within the ceiling, and `OutOfStorage` from then on. */
  lemma {:induction false} AllocateManyIds(s: Store, k: nat)
    requires Wf(s)
    ensures forall i :: 0 <= i < k ==>
      AllocateMany(s, k).0[i] ==
        if s.numPages + i < MAX_NUM_DISK_PAGES then Ok(s.numPages + i + 1) else Err(OutOfStorage)
    decreases k
  {
    if k > 0 {
      var (a, s1) := Allocate(s);
      AllocateManyIds(s1, k - 1);
      var r := AllocateMany(s, k).0;
      var rest := AllocateMany(s1, k - 1).0;
      assert r == [a] + rest;
      forall i | 0 < i < k
        ensures r[i] == if s.numPages + i < MAX_NUM_DISK_PAGES then Ok(s.numPages + i + 1) else Err(OutOfStorage)
      {
        assert r[i] == rest[i - 1];
        if s.numPages >= MAX_NUM_DISK_PAGES { assert s1 == s; }
      }
    }
  }

  /** From an empty store: ids 1..15, then `OutOfStorage` for every later call. */
  lemma FreshStoreAllocations(k: nat)
    ensures forall i :: 0 <= i < k ==>
      AllocateMany(Empty, k).0[i] == if i < MAX_NUM_DISK_PAGES then Ok(i + 1) else Err(OutOfStorage)
  {
    AllocateManyIds(Empty, k);
  }

  /** Ids are never reused: whatever was deallocated, the next id minted is
      larger than every id minted before it. */
  lemma NoIdReuse(s: Store, id: int)
    requires Wf(s)
    ensures var (a, _) := Allocate(Deallocate(s, id));
      a.Ok? ==> a.value > s.numPages
  {
  }
}
