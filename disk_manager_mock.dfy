// DiskManager: the in-memory `DiskManagerMock` store object.

module DiskManager {

  import opened Pages
  import DiskSpec

  /** Non-decreasing order. */
  predicate Sorted(s: seq<int>)
  {
    forall i, j :: 0 <= i < j < |s| ==> s[i] <= s[j]
  }

  /** Inserts `x` into a sorted sequence. */
  function Insert(s: seq<int>, x: int): (r: seq<int>)
    requires Sorted(s)
    ensures Sorted(r) && multiset(r) == multiset(s) + multiset{x}
  {
    if |s| == 0 || x <= s[0] then [x] + s
    else
      var rest := Insert(s[1..], x);
      assert s == [s[0]] + s[1..];
      assert forall i :: 0 <= i < |rest| ==> s[0] <= rest[i] by {
        forall i | 0 <= i < |rest| ensures s[0] <= rest[i] {
          assert rest[i] in multiset(rest);
        }
      }
      [s[0]] + rest
  }

  /** The ascending rearrangement of `s` (the source calls the library sort;
      any sort yields the same sequence). */
  function Sort(s: seq<int>): (r: seq<int>)
    ensures Sorted(r) && multiset(r) == multiset(s)
  {
    if |s| == 0 then []
    else
      assert s == [s[0]] + s[1..];
      Insert(Sort(s[1..]), s[0])
  }

  predicate NoDuplicates(s: seq<int>)
  {
    forall i, j :: 0 <= i < j < |s| ==> s[i] != s[j]
  }

  lemma {:induction false} NoDuplicatesMultiset(s: seq<int>, x: int)
    requires NoDuplicates(s)
    ensures multiset(s)[x] <= 1
  {
    if |s| > 0 {
      assert s == [s[0]] + s[1..];
      NoDuplicatesMultiset(s[1..], x);
      if s[0] == x {
        assert x !in s[1..];
      }
    }
  }

  /** A rearrangement of a sequence without duplicates has none either. */
  lemma PermutationNoDuplicates(s: seq<int>, r: seq<int>)
    requires NoDuplicates(s) && multiset(r) == multiset(s)
    ensures NoDuplicates(r)
  {
    forall i, j | 0 <= i < j < |r| ensures r[i] != r[j] {
      if r[i] == r[j] {
        assert r == r[..i] + [r[i]] + r[i + 1..j] + [r[j]] + r[j + 1..];
        assert multiset(r)[r[i]] >= 2;
        NoDuplicatesMultiset(s, r[i]);
      }
    }
  }

  /** Sorting a sequence without duplicates gives a strictly ascending
      sequence with the same elements. */
  function SortDistinct(s: seq<int>): (r: seq<int>)
    requires NoDuplicates(s)
    ensures forall i, j :: 0 <= i < j < |r| ==> r[i] < r[j]
    ensures forall x :: x in r <==> x in s
  {
    var r := Sort(s);
    PermutationNoDuplicates(s, r);
    assert forall x :: x in r <==> x in s by {
      forall x ensures x in r <==> x in s {
        assert x in r <==> x in multiset(r);
        assert x in s <==> x in multiset(s);
      }
    }
    r
  }

  /** A non-empty set has an element to pick (used by the loop below). */
  lemma HasElement(s: set<int>)
    requires s != {}
    ensures exists x :: x in s
  {
    if forall x :: x !in s {
    }
  }

  class DiskManagerMock {
    var numPages: int
    var pages: map<int, Page>

    ghost function State(): DiskSpec.Store
      reads this
    {
      DiskSpec.Store(numPages, pages)
    }

    ghost predicate Valid()
      reads this
    {
      DiskSpec.Wf(State())
    }

    constructor ()
      ensures Valid() && State() == DiskSpec.Empty
    {
      numPages := 0;
      pages := map[];
    }

    function ReadPage(id: int): (r: Result<Page>)
      requires Valid()
      reads this
      ensures r == DiskSpec.Read(State(), id)
    {
      if id in pages then Ok(pages[id]) else Err(PageNotFound)
    }

    method WritePage(page: Page)
      requires Valid()
      modifies this
      ensures Valid()
      ensures State() == DiskSpec.Write(old(State()), page)
    {
      pages := pages[page.id := page];
    }

    method AllocatePage() returns (r: Result<int>)
      requires Valid()
      modifies this
      ensures Valid()
      ensures (r, State()) == DiskSpec.Allocate(old(State()))
    {
      if numPages >= MAX_NUM_DISK_PAGES {
        return Err(OutOfStorage);
      }
      numPages := numPages + 1;
      return Ok(numPages);
    }

    method DeallocatePage(id: int)
      requires Valid()
      modifies this
      ensures Valid()
      ensures State() == DiskSpec.Deallocate(old(State()), id)
    {
      pages := pages - {id};
    }

    /** The stored ids, each once, in ascending order. */
    method PagesOnDisk() returns (ids: seq<int>)
      ensures forall i, j :: 0 <= i < j < |ids| ==> ids[i] < ids[j]
      ensures forall id :: id in ids <==> id in pages
    {
      var stored := pages;
      var keys := stored.Keys;
      var collected: seq<int> := [];
      while keys != {}
        invariant forall id :: id in collected <==> id in stored && id !in keys
        invariant keys <= stored.Keys
        invariant NoDuplicates(collected)
        decreases keys
      {
        HasElement(keys);
        var id :| id in keys;
        assert id !in collected;
        collected := collected + [id];
        keys := keys - {id};
      }
      ids := SortDistinct(collected);
    }
  }
}
