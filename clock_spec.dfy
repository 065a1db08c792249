// ClockSpec: the second-chance replacer as a value, the specification its
// imperative class (module Replacer) is proved against.

module ClockSpec {

  import opened Pages

  /** One tracked frame and its reference bit, `(FrameId, bool)` in the source. */
  datatype Entry = Entry(frame: int, referenced: bool)

  /** The replacer's list of candidates and its cursor. */
  datatype Clock = Clock(list: seq<Entry>, current: nat)

  const Empty: Clock := Clock([], 0)

  predicate Distinct(list: seq<Entry>)
  {
    forall i, j :: 0 <= i < j < |list| ==> list[i].frame != list[j].frame
  }

  /** The replacer's invariant: no frame tracked twice, and the cursor is on an
      entry whenever there is one (it is 0 when the list is empty). */
  predicate Wf(c: Clock)
  {
    Distinct(c.list) && (c.current < |c.list| || c.current == 0)
  }

  ghost function Frames(list: seq<Entry>): set<int>
  {
    set i | 0 <= i < |list| :: list[i].frame
  }

  /** Index of the first entry for `id`, or |list| when there is none
      (`iter().position` / `iter().any` in the source). */
  function Position(list: seq<Entry>, id: int): (i: nat)
    ensures i <= |list|
    ensures i < |list| ==> list[i].frame == id
    ensures forall j :: 0 <= j < i ==> list[j].frame != id
  {
    if |list| == 0 then 0
    else if list[0].frame == id then 0
    else 1 + Position(list[1..], id)
  }

  predicate Tracks(c: Clock, id: int)
  {
    Position(c.list, id) < |c.list|
  }

  lemma TracksIff(c: Clock, id: int)
    ensures Tracks(c, id) <==> id in Frames(c.list)
  {
    if id in Frames(c.list) {
      var i :| 0 <= i < |c.list| && c.list[i].frame == id;
      assert Position(c.list, id) <= i;
    }
  }

  /** `remove`: drops the entry at `index`; the cursor keeps its numeric value
      unless that would fall off the end, in which case it goes back to 0. */
  function Remove(c: Clock, index: nat): (r: Clock)
    requires index < |c.list|
    ensures |r.list| == |c.list| - 1
    ensures forall i :: 0 <= i < index ==> r.list[i] == c.list[i]
    ensures forall i :: index <= i < |r.list| ==> r.list[i] == c.list[i + 1]
    ensures r.current == (if c.current < |r.list| then c.current else 0)
  {
    var list := c.list[..index] + c.list[index + 1..];
    Clock(list, if c.current >= |list| then 0 else c.current)
  }

  lemma RemoveFrames(c: Clock, index: nat)
    requires Wf(c) && index < |c.list|
    ensures Wf(Remove(c, index))
    ensures Frames(Remove(c, index).list) == Frames(c.list) - {c.list[index].frame}
  {
    var r := Remove(c, index);
    forall x | x in Frames(c.list) - {c.list[index].frame}
      ensures x in Frames(r.list)
    {
      var i :| 0 <= i < |c.list| && c.list[i].frame == x;
      if i < index { assert r.list[i].frame == x; } else { assert r.list[i - 1].frame == x; }
    }
  }

  /** `unpin`: a frame not yet tracked is appended with its reference bit set. */
  function Unpin(c: Clock, id: int): (r: Clock)
    requires Wf(c)
    ensures Wf(r) && Tracks(r, id)
    ensures Frames(r.list) == Frames(c.list) + {id}
    ensures Tracks(c, id) ==> r == c
    ensures !Tracks(c, id) ==> r.list == c.list + [Entry(id, true)] && r.current == c.current
  {
    TracksIff(c, id);
    if Tracks(c, id) then c
    else
      var r := Clock(c.list + [Entry(id, true)], c.current);
      assert r.list[|c.list|].frame == id;
      assert Frames(r.list) == Frames(c.list) + {id} by {
        forall x | x in Frames(r.list) ensures x in Frames(c.list) + {id} {
          var i :| 0 <= i < |r.list| && r.list[i].frame == x;
          if i < |c.list| { assert c.list[i].frame == x; }
        }
        forall x | x in Frames(c.list) ensures x in Frames(r.list) {
          var i :| 0 <= i < |c.list| && c.list[i].frame == x;
          assert r.list[i].frame == x;
        }
      }
      r
  }

  /** `pin`: the frame's entry, if any, is removed; otherwise nothing changes. */
  function Pin(c: Clock, id: int): (r: Clock)
    requires Wf(c)
    ensures Wf(r) && !Tracks(r, id)
    ensures Frames(r.list) == Frames(c.list) - {id}
    ensures !Tracks(c, id) ==> r == c
    ensures Tracks(c, id) ==> |r.list| == |c.list| - 1
    ensures Tracks(c, id) ==> r == Remove(c, Position(c.list, id))
  {
    var i := Position(c.list, id);
    TracksIff(c, id);
    if i < |c.list| then
      RemoveFrames(c, i);
      TracksIff(Remove(c, i), id);
      Remove(c, i)
    else c
  }

  // ---- the clock hand ----

  /** Index of the entry `t` steps after `cur` in a circular list of length `n`. */
  function Hand(cur: nat, t: nat, n: nat): (h: nat)
    requires cur < n && t <= n
    ensures h < n
  {
    if cur + t < n then cur + t else cur + t - n
  }

  /** Number of steps from `cur` forward to index `i`. */
  function Offset(i: nat, cur: nat, n: nat): nat
    requires i < n && cur < n
  {
    if i >= cur then i - cur else i + n - cur
  }

  lemma OffsetOfHand(i: nat, cur: nat, t: nat, n: nat)
    requires i < n && cur < n && t < n
    ensures Offset(i, cur, n) == t <==> i == Hand(cur, t, n)
  {
  }

  /** Advancing the hand by one with `(current + 1) % len`, as the source does,
      is the same as stepping one further from the start. */
  lemma HandStep(cur: nat, t: nat, n: nat)
    requires cur < n && t < n
    ensures (Hand(cur, t, n) + 1) % n == Hand(cur, t + 1, n)
  {
    var h := Hand(cur, t, n);
    if h + 1 < n {
      assert (h + 1) % n == h + 1;
    } else {
      assert h + 1 == n;
    }
  }

  /** Offset from `cur` of the first entry, at or after offset `d`, whose
      reference bit is clear; |list| when every such bit is set. */
  function FirstClear(list: seq<Entry>, cur: nat, d: nat): (r: nat)
    requires cur < |list| && d <= |list|
    decreases |list| - d
    ensures d <= r <= |list|
    ensures forall e :: d <= e < r ==> list[Hand(cur, e, |list|)].referenced
    ensures r < |list| ==> !list[Hand(cur, r, |list|)].referenced
  {
    if d == |list| then d
    else if !list[Hand(cur, d, |list|)].referenced then d
    else FirstClear(list, cur, d + 1)
  }

  /** The list after the hand has swept over the first `t` entries from `cur`,
      clearing their reference bits. */
  function Cleared(list: seq<Entry>, cur: nat, t: nat): (r: seq<Entry>)
    requires cur < |list|
    ensures |r| == |list|
    ensures forall i :: 0 <= i < |list| ==> r[i].frame == list[i].frame
  {
    seq(|list|, i requires 0 <= i < |list| =>
      Entry(list[i].frame, list[i].referenced && Offset(i, cur, |list|) >= t))
  }

  lemma ClearedStep(list: seq<Entry>, cur: nat, t: nat)
    requires cur < |list| && t < |list|
    ensures var h := Hand(cur, t, |list|);
      Cleared(list, cur, t)[h := Entry(list[h].frame, false)] == Cleared(list, cur, t + 1)
  {
    var h := Hand(cur, t, |list|);
    var stepped := Cleared(list, cur, t)[h := Entry(list[h].frame, false)];
    var next := Cleared(list, cur, t + 1);
    forall i | 0 <= i < |list|
      ensures stepped[i] == next[i]
    {
      OffsetOfHand(i, cur, t, |list|);
    }
  }

  /** After `t` steps of the sweep the bit under the hand is set exactly when
      the sweep has not yet reached the first clear bit. */
  lemma SweepBit(list: seq<Entry>, cur: nat, t: nat)
    requires cur < |list| && t <= FirstClear(list, cur, 0)
    ensures Cleared(list, cur, t)[Hand(cur, t, |list|)].referenced <==> t < FirstClear(list, cur, 0)
  {
    var n := |list|;
    if t < n {
      OffsetOfHand(Hand(cur, t, n), cur, t, n);
    } else {
      assert Offset(Hand(cur, t, n), cur, n) < t;
    }
  }

  /** `victim`: sweeps from the cursor clearing set bits until it meets a clear
      one (after a full sweep that is the entry it started on), removes that
      entry and returns its frame. */
  function Victim(c: Clock): (r: (Option<int>, Clock))
    requires Wf(c)
    ensures r.0.None? <==> |c.list| == 0
    ensures r.0.None? ==> r.1 == c
    ensures r.0.Some? ==> r.0.value in Frames(c.list) && |r.1.list| == |c.list| - 1
    ensures r.0.Some? ==> Frames(r.1.list) == Frames(c.list) - {r.0.value}
    ensures Wf(r.1)
  {
    if |c.list| == 0 then (None, c)
    else
      var n := |c.list|;
      var d := FirstClear(c.list, c.current, 0);
      var v := Hand(c.current, d, n);
      var swept := Clock(Cleared(c.list, c.current, d), v);
      assert Frames(swept.list) == Frames(c.list) by {
        assert forall i :: 0 <= i < n ==> swept.list[i].frame == c.list[i].frame;
      }
      assert Distinct(swept.list);
      RemoveFrames(swept, v);
      (Some(c.list[v].frame), Remove(swept, v))
  }

  /** The entry chosen by `victim` is the first one at or after the cursor,
      in circular order, whose reference bit was clear; when every bit was set
      it is the entry under the cursor. Every entry passed over had its bit set
      (that it is now clear is `VictimKeepsOthers`). */
  lemma VictimIsFirstClear(c: Clock)
    requires Wf(c) && |c.list| > 0
    ensures var n := |c.list|;
      exists d :: 0 <= d <= n
        && Victim(c).0 == Some(c.list[Hand(c.current, d, n)].frame)
        && (forall e :: 0 <= e < d ==> c.list[Hand(c.current, e, n)].referenced)
        && (d < n ==> !c.list[Hand(c.current, d, n)].referenced)
        && (d == n ==> Hand(c.current, d, n) == c.current)
  {
    var d := FirstClear(c.list, c.current, 0);
    assert Victim(c).0 == Some(c.list[Hand(c.current, d, |c.list|)].frame);
  }

  /** What `victim` leaves behind: the other entries in their old order, each
      with its bit cleared exactly when the sweep passed it (its offset from
      the cursor is below the first clear bit's), and the cursor on the index
      the victim had, or 0 when that index is now past the end. */
  lemma VictimKeepsOthers(c: Clock)
    requires Wf(c) && |c.list| > 0
    ensures var n := |c.list|;
      var d := FirstClear(c.list, c.current, 0);
      var v := Hand(c.current, d, n);
      var r := Victim(c).1;
      && |r.list| == n - 1
      && r.current == (if v < n - 1 then v else 0)
      && (forall i :: 0 <= i < v ==>
            r.list[i] == Entry(c.list[i].frame, c.list[i].referenced && Offset(i, c.current, n) > d))
      && (forall i :: v < i < n ==>
            r.list[i - 1] == Entry(c.list[i].frame, c.list[i].referenced && Offset(i, c.current, n) > d))
  {
    var n := |c.list|;
    var d := FirstClear(c.list, c.current, 0);
    var v := Hand(c.current, d, n);
    OffsetOfHand(v, c.current, if d < n then d else 0, n);
    forall i | 0 <= i < n && i != v
      ensures Offset(i, c.current, n) != d
    {
      if d < n { OffsetOfHand(i, c.current, d, n); }
    }
  }

  /** Unpinning twice is unpinning once. */
  lemma UnpinIdempotent(c: Clock, id: int)
    requires Wf(c)
    ensures Unpin(Unpin(c, id), id) == Unpin(c, id)
  {
  }

  /** Pinning a frame whose entry lies before the cursor removes it without
      moving the cursor back: the entry the hand was on slides one place behind
      the hand, and the next sweep starts one entry later than it would have. */
  lemma PinBehindCursorSkips(c: Clock, id: int)
    requires Wf(c) && Tracks(c, id)
    requires Position(c.list, id) < c.current < |c.list| - 1
    ensures Pin(c, id).current == c.current
    ensures Pin(c, id).list[c.current - 1] == c.list[c.current]
    ensures Pin(c, id).list[c.current] == c.list[c.current + 1]
  {
  }
}
