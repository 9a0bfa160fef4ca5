/** The timelines of `grid.py`: binary search for the range that holds a key, or for the place
    of a key among events, and the slices picked with it. */
module Timeline {

  datatype DataRange = DataRange(start: int, end: int)
  datatype Event = Event(at: int)

  /** Well-formed ranges in order, which may share their endpoints. */
  ghost predicate Ordered(rs: seq<DataRange>) {
    && (forall i :: 0 <= i < |rs| ==> rs[i].start <= rs[i].end)
    && (forall i, j :: 0 <= i < j < |rs| ==> rs[i].end <= rs[j].start)
  }

  /** Each range ends before the next one starts. */
  ghost predicate Disjoint(rs: seq<DataRange>) {
    && (forall i :: 0 <= i < |rs| ==> rs[i].start <= rs[i].end)
    && (forall i, j :: 0 <= i < j < |rs| ==> rs[i].end < rs[j].start)
  }

  predicate Contains(r: DataRange, key: int) {
    r.start <= key <= r.end
  }

  predicate Meets(r: DataRange, start: int, end: int) {
    r.start <= end && start <= r.end
  }

  class TimelineDataRange {
    var ranges: seq<DataRange>

    constructor ()
      ensures ranges == []
    {
      ranges := [];
    }

    method AddRange(range: DataRange)
      modifies this`ranges
      ensures ranges == old(ranges) + [range]
    {
      ranges := ranges + [range];
    }

    method Search(key: int) returns (r: int)
      requires Ordered(ranges)
      ensures r == Found(ranges, key, 0, |ranges| - 1)
      ensures r == -1 || 0 <= r < |ranges|
      ensures r >= 0 ==> Contains(ranges[r], key)
      ensures r == -1 ==> forall i :: 0 <= i < |ranges| ==> !Contains(ranges[i], key)
    {
      hide Found;
      var l, u := 0, |ranges| - 1;
      while l <= u
        invariant 0 <= l <= u + 1 <= |ranges|
        invariant Found(ranges, key, l, u) == Found(ranges, key, 0, |ranges| - 1)
        invariant forall i :: 0 <= i < l ==> ranges[i].end < key
        invariant forall i :: u < i < |ranges| ==> key < ranges[i].start
        decreases u - l
      {
        FoundNext(ranges, key, l, u);
        var i := (l + u) / 2;
        if key >= ranges[i].start && key <= ranges[i].end {
          return i;
        } else if key < ranges[i].start {
          u := i - 1;
        } else {
          l := i + 1;
        }
      }
      FoundNext(ranges, key, l, u);
      return -1;
    }

    /** With both ends held by ranges, only ranges that meet the interval; with one end held,
        everything on the other side as well; with neither, nothing. What is missed touches the
        interval in one point; of disjoint ranges nothing is. */
    method GetRangesBounds(start: int, end: int) returns (lo: nat, hi: nat)
      requires Ordered(ranges) && start <= end
      ensures lo <= hi <= |ranges|
      ensures Held(ranges, start) || Held(ranges, end) ==> NearlyCovers(ranges, start, end, lo, hi)
      ensures Held(ranges, start) && Held(ranges, end) ==>
        forall k :: lo <= k < hi ==> Meets(ranges[k], start, end)
      ensures !Held(ranges, start) && Held(ranges, end) ==> lo == 0 < hi && Contains(ranges[hi - 1], end)
      ensures Held(ranges, start) && !Held(ranges, end) ==> lo < hi == |ranges| && Contains(ranges[lo], start)
      ensures !Held(ranges, start) && !Held(ranges, end) ==> lo == hi == 0
      ensures Disjoint(ranges) && (Held(ranges, start) || Held(ranges, end)) ==> Covers(ranges, start, end, lo, hi)
      ensures Disjoint(ranges) ==> (Exact(ranges, start, end, lo, hi) <==> PicksExactly(ranges, start, end))
    {
      hide Exact, Covers, PicksExactly, NearlyCovers, Meets, Disjoint;
      var s := Search(start);
      var e := Search(end);
      if s == -1 && e == -1 {
        lo, hi := 0, 0;
      } else if s == -1 {
        lo, hi := 0, e + 1;
      } else if e == -1 {
        lo, hi := s, |ranges|;
      } else {
        lo, hi := s, e + 1;
      }
      BoundsOrdered(ranges, start, end, s, e, lo, hi);
      if Disjoint(ranges) {
        BoundsExact(ranges, start, end, s, e, lo, hi);
      }
    }

    method GetRanges(start: int, end: int) returns (rs: seq<DataRange>)
      requires Ordered(ranges) && start <= end
      ensures Held(ranges, start) || Held(ranges, end) ==>
        forall r :: r in ranges && Meets(r, start, end) && !Touches(r, start, end) ==> r in rs
      ensures Held(ranges, start) && Held(ranges, end) ==> forall r :: r in rs ==> Meets(r, start, end)
      ensures !Held(ranges, start) && Held(ranges, end) ==>
        rs != [] && rs <= ranges && Contains(rs[|rs| - 1], end)
      ensures Held(ranges, start) && !Held(ranges, end) ==>
        0 < |rs| <= |ranges| && rs == ranges[|ranges| - |rs|..] && Contains(rs[0], start)
      ensures !Held(ranges, start) && !Held(ranges, end) ==> rs == []
      ensures exists lo, hi :: 0 <= lo <= hi <= |ranges| && rs == ranges[lo..hi]
      ensures Disjoint(ranges) && (Held(ranges, start) || Held(ranges, end)) ==>
        forall r :: r in ranges && Meets(r, start, end) ==> r in rs
      ensures Disjoint(ranges) ==>
        ((forall r :: r in rs <==> r in ranges && Meets(r, start, end)) <==> PicksExactly(ranges, start, end))
    {
      hide Exact, Covers, PicksExactly, Meets, Touches, Disjoint, Contains, Held;
      var lo, hi := GetRangesBounds(start, end);
      rs := ranges[lo..hi];
      SliceNearly(ranges, start, end, lo, hi);
      if Disjoint(ranges) {
        SliceExact(ranges, start, end, lo, hi);
      }
    }
  }

  /** Where the binary search between two positions ends; neighbours that share the key are told
      apart by this alone. */
  ghost function Found(rs: seq<DataRange>, key: int, l: int, u: int): int
    requires 0 <= l && u < |rs|
    decreases u - l
  {
    if l > u then -1
    else
      var i := (l + u) / 2;
      if Contains(rs[i], key) then i
      else if key < rs[i].start then Found(rs, key, l, i - 1)
      else Found(rs, key, i + 1, u)
  }

  lemma FoundNext(rs: seq<DataRange>, key: int, l: int, u: int)
    requires 0 <= l && u < |rs|
    ensures Found(rs, key, l, u) ==
      if l > u then -1
      else
        var i := (l + u) / 2;
        if Contains(rs[i], key) then i
        else if key < rs[i].start then Found(rs, key, l, i - 1)
        else Found(rs, key, i + 1, u)
  {
  }

  ghost predicate Held(rs: seq<DataRange>, key: int) {
    exists i :: 0 <= i < |rs| && Contains(rs[i], key)
  }

  ghost predicate Exact(rs: seq<DataRange>, start: int, end: int, lo: nat, hi: nat) {
    forall k :: 0 <= k < |rs| ==> (lo <= k < hi <==> Meets(rs[k], start, end))
  }

  ghost predicate Covers(rs: seq<DataRange>, start: int, end: int, lo: nat, hi: nat) {
    forall k :: 0 <= k < |rs| && Meets(rs[k], start, end) ==> lo <= k < hi
  }

  /** The range meets the interval in an endpoint of both only. */
  predicate Touches(r: DataRange, start: int, end: int) {
    r.end == start || r.start == end
  }

  /** Only ranges that end where the interval starts are missed before the slice, and after it
      only ranges that start where it ends. */
  ghost predicate NearlyCovers(rs: seq<DataRange>, start: int, end: int, lo: nat, hi: nat) {
    && (forall k :: 0 <= k < |rs| && Meets(rs[k], start, end) && k < lo ==> rs[k].end == start)
    && (forall k :: 0 <= k < |rs| && Meets(rs[k], start, end) && hi <= k ==> rs[k].start == end)
  }

  lemma BoundsOrdered(rs: seq<DataRange>, start: int, end: int, s: int, e: int, lo: nat, hi: nat)
    requires Ordered(rs) && start <= end && (start == end ==> s == e)
    requires if s == -1 then !Held(rs, start) else 0 <= s < |rs| && Contains(rs[s], start)
    requires if e == -1 then !Held(rs, end) else 0 <= e < |rs| && Contains(rs[e], end)
    requires lo == if s == -1 then 0 else s
    requires hi == if e == -1 then (if s == -1 then 0 else |rs|) else e + 1
    ensures lo <= hi <= |rs| && (s != -1 || e != -1 ==> NearlyCovers(rs, start, end, lo, hi))
    ensures s != -1 && e != -1 ==> forall k :: lo <= k < hi ==> Meets(rs[k], start, end)
  {
  }

  /** When the slice is exact: an end in a gap is harmless only beyond the first or last range,
      and two ends in gaps only with no range between them. */
  ghost predicate PicksExactly(rs: seq<DataRange>, start: int, end: int) {
    if Held(rs, start) && Held(rs, end) then true
    else if Held(rs, end) then start < rs[0].start
    else if Held(rs, start) then rs[|rs| - 1].end < end
    else forall k :: 0 <= k < |rs| ==> !(start < rs[k].start && rs[k].end < end)
  }

  lemma BoundsExact(rs: seq<DataRange>, start: int, end: int, s: int, e: int, lo: nat, hi: nat)
    requires Disjoint(rs) && start <= end
    requires if s == -1 then !Held(rs, start) else 0 <= s < |rs| && Contains(rs[s], start)
    requires if e == -1 then !Held(rs, end) else 0 <= e < |rs| && Contains(rs[e], end)
    requires lo == if s == -1 then 0 else s
    requires hi == if e == -1 then (if s == -1 then 0 else |rs|) else e + 1
    ensures lo <= hi && (s != -1 || e != -1 ==> Covers(rs, start, end, lo, hi))
    ensures s != -1 && e != -1 ==> Exact(rs, start, end, lo, hi)
    ensures Exact(rs, start, end, lo, hi) <==> PicksExactly(rs, start, end)
  {
  }

  lemma SliceNearly(rs: seq<DataRange>, start: int, end: int, lo: nat, hi: nat)
    requires lo <= hi <= |rs|
    ensures NearlyCovers(rs, start, end, lo, hi) ==>
      forall r :: r in rs && Meets(r, start, end) && !Touches(r, start, end) ==> r in rs[lo..hi]
    ensures (forall k :: lo <= k < hi ==> Meets(rs[k], start, end)) ==>
      forall r :: r in rs[lo..hi] ==> Meets(r, start, end)
  {
    forall k | lo <= k < hi ensures rs[k] in rs[lo..hi] {
      assert rs[lo..hi][k - lo] == rs[k];
    }
  }

  /** The ranges of a slice, against their positions. */
  lemma SliceExact(rs: seq<DataRange>, start: int, end: int, lo: nat, hi: nat)
    requires Disjoint(rs) && lo <= hi <= |rs|
    ensures Exact(rs, start, end, lo, hi) <==> forall r :: r in rs[lo..hi] <==> r in rs && Meets(r, start, end)
    ensures Covers(rs, start, end, lo, hi) <==> forall r :: r in rs && Meets(r, start, end) ==> r in rs[lo..hi]
  {
    forall k | 0 <= k < |rs| ensures lo <= k < hi <==> rs[k] in rs[lo..hi] {
      if lo <= k < hi {
        assert rs[lo..hi][k - lo] == rs[k];
      }
    }
  }

  /** Between two gaps a range is missed: nothing is picked, though the range lies inside. */
  lemma GapExample()
    ensures var rs := [DataRange(1, 2)];
      Disjoint(rs) && !Held(rs, 0) && !Held(rs, 3) && Meets(rs[0], 0, 3) && !PicksExactly(rs, 0, 3)
  {
    var rs := [DataRange(1, 2)];
    assert 0 < rs[0].start && rs[0].end < 3;
  }

  /** A range that ends where the interval starts is missed if the search finds the next one. */
  lemma TouchExample()
    ensures var rs := [DataRange(1, 2), DataRange(2, 3), DataRange(3, 4)];
      && Ordered(rs) && Found(rs, 2, 0, 2) == 1 && Meets(rs[0], 2, 2) && Touches(rs[0], 2, 2)
      && Found(rs[..2], 2, 0, 1) == 0 && Meets(rs[1], 2, 2) && Touches(rs[1], 2, 2)
  {
    var rs := [DataRange(1, 2), DataRange(2, 3), DataRange(3, 4)];
    assert (0 + 2) / 2 == 1 && Contains(rs[1], 2);
    assert (0 + 1) / 2 == 0 && Contains(rs[..2][0], 2);
  }

  // ---------------------------------------------------------------- events

  ghost predicate Increasing(es: seq<Event>) {
    forall i, j :: 0 <= i < j < |es| ==> es[i].at < es[j].at
  }

  class TimelineEvent {
    var events: seq<Event>

    constructor ()
      ensures events == []
    {
      events := [];
    }

    method AddEvent(event: Event)
      modifies this`events
      ensures events == old(events) + [event]
    {
      events := events + [event];
    }

    /** The first event not before the key. */
    method Search(key: int) returns (r: nat)
      requires Increasing(events)
      ensures r <= |events|
      ensures forall i :: 0 <= i < |events| ==> (i < r <==> events[i].at < key)
    {
      var l, u := 0, |events| - 1;
      while l <= u
        invariant 0 <= l <= u + 1 <= |events|
        invariant forall i :: 0 <= i < l ==> events[i].at < key
        invariant forall i :: u < i < |events| ==> key < events[i].at
        decreases u - l
      {
        var i := (l + u) / 2;
        if key == events[i].at {
          return i;
        } else if key < events[i].at {
          u := i - 1;
        } else {
          l := i + 1;
        }
      }
      return l;
    }

    /** The upper bound may lie one past the last event. */
    method GetEventsBounds(start: int, end: int) returns (lo: nat, hi: nat)
      requires Increasing(events) && start <= end
      ensures lo < hi <= |events| + 1
      ensures forall i :: 0 <= i < |events| ==> (i < lo <==> events[i].at < start)
      ensures forall i :: 0 <= i < |events| ==> (i < hi - 1 <==> events[i].at < end)
    {
      lo := Search(start);
      hi := Search(end);
      assert hi < |events| ==> events[hi].at >= end;
      hi := hi + 1;
    }

    /** The events of the interval, and the one event that follows it unless an event lies on
        its end. */
    method GetEvents(start: int, end: int) returns (es: seq<Event>)
      requires Increasing(events) && start <= end
      ensures forall e :: e in es <==> e in events && start <= e.at && (e.at <= end || Follows(events, end, e))
      ensures exists lo, hi :: 0 <= lo <= hi <= |events| && es == events[lo..hi]
    {
      var lo, hi := GetEventsBounds(start, end);
      // A Python slice stops at the end of the list.
      var stop := if hi < |events| then hi else |events|;
      es := events[lo..stop];
      forall i | 0 <= i < |events|
        ensures i < stop <==> events[i].at <= end || Follows(events, end, events[i])
      {
        UpToNext(events, end, hi - 1, i);
      }
      forall i | 0 <= i < |events| ensures lo <= i < stop <==> events[i] in es {
        if lo <= i < stop {
          assert es[i - lo] == events[i];
        }
      }
    }
  }

  /** `e` comes next after `end`, on which there is no event. */
  ghost predicate Follows(es: seq<Event>, end: int, e: Event) {
    end < e.at && Event(end) !in es && forall f :: f in es && end < f.at ==> e.at <= f.at
  }

  lemma UpToNext(es: seq<Event>, end: int, r: nat, i: nat)
    requires Increasing(es) && i < |es|
    requires forall k :: 0 <= k < |es| ==> (k < r <==> es[k].at < end)
    ensures i <= r <==> es[i].at <= end || Follows(es, end, es[i])
  {
    if i == r && end < es[i].at {
      forall f | f in es && end <= f.at ensures es[i].at <= f.at {
        var k :| 0 <= k < |es| && es[k] == f;
      }
    } else if r < i {
      assert end <= es[r].at < es[i].at && es[r] in es;
      assert es[r].at == end ==> es[r] == Event(end);
    }
  }
}
