// Replacer: the `ClockReplacer` object, updated in place by the buffer pool.

module Replacer {

  import opened Pages
  import opened ClockSpec

  class ClockReplacer {
    var list: seq<Entry>
    var current: nat

    ghost function State(): Clock
      reads this
    {
      Clock(list, current)
    }

    ghost predicate Valid()
      reads this
    {
      Wf(State())
    }

    constructor ()
      ensures Valid() && State() == Empty
    {
      list := [];
      current := 0;
    }

    /** Linear search for the entry of frame `id`. */
    method IndexOf(id: int) returns (i: nat)
      ensures i == Position(list, id)
    {
      i := 0;
      while i < |list| && list[i].frame != id
        invariant i <= |list|
        invariant forall j :: 0 <= j < i ==> list[j].frame != id
      {
        i := i + 1;
      }
    }

    method Remove(index: nat)
      requires Valid() && index < |list|
      modifies this
      ensures Valid()
      ensures State() == ClockSpec.Remove(old(State()), index)
    {
      RemoveFrames(State(), index);
      list := list[..index] + list[index + 1..];
      if current >= |list| {
        current := 0;
      }
    }

    method Victim() returns (r: Option<int>)
      requires Valid()
      modifies this
      ensures Valid()
      ensures (r, State()) == ClockSpec.Victim(old(State()))
    {
      if |list| == 0 {
        return None;
      }
      ghost var c0 := State();
      ghost var n := |list|;
      ghost var d := FirstClear(c0.list, c0.current, 0);
      ghost var t := 0;
      SweepBit(c0.list, c0.current, 0);
      while list[current].referenced
        invariant |list| == n && current < n
        invariant t <= d
        invariant current == Hand(c0.current, t, n)
        invariant list == Cleared(c0.list, c0.current, t)
        invariant list[current].referenced <==> t < d
        decreases d - t
      {
        ClearedStep(c0.list, c0.current, t);
        HandStep(c0.current, t, n);
        list := list[current := Entry(list[current].frame, false)];
        current := (current + 1) % |list|;
        t := t + 1;
        SweepBit(c0.list, c0.current, t);
      }
      var frame := list[current].frame;
      Remove(current);
      return Some(frame);
    }

    method Unpin(id: int)
      requires Valid()
      modifies this
      ensures Valid()
      ensures State() == ClockSpec.Unpin(old(State()), id)
    {
      var i := IndexOf(id);
      var has := i < |list|;
      if !has {
        list := list + [Entry(id, true)];
      }
    }

    method Pin(id: int)
      requires Valid()
      modifies this
      ensures Valid()
      ensures State() == ClockSpec.Pin(old(State()), id)
    {
      var i := IndexOf(id);
      if i < |list| {
        Remove(i);
      }
    }
  }
}
