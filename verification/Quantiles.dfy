/** `quantile` and `trim` in `rad_util.py`, over the reals. */
module Quantiles {
  import opened Sequences

  datatype Result<+T> = Ok(value: T) | IndexError

  predicate Sorted(s: seq<real>) {
    forall i, j :: 0 <= i <= j < |s| ==> s[i] <= s[j]
  }

  /** The sorted copy that list.sort leaves. */
  function Sort(l: seq<real>): (s: seq<real>)
    ensures |s| == |l|
  {
    if l == [] then [] else InsertSorted(Sort(l[..|l| - 1]), l[|l| - 1])
  }

  function InsertSorted(s: seq<real>, x: real): (t: seq<real>)
    ensures |t| == |s| + 1
  {
    if s == [] then [x]
    else if x < s[|s| - 1] then InsertSorted(s[..|s| - 1], x) + [s[|s| - 1]]
    else s + [x]
  }

  lemma {:induction false} InsertMultiset(s: seq<real>, x: real)
    ensures multiset(InsertSorted(s, x)) == multiset(s) + multiset{x}
  {
    if s != [] && x < s[|s| - 1] {
      InsertMultiset(s[..|s| - 1], x);
      assert s == s[..|s| - 1] + [s[|s| - 1]];
    }
  }

  lemma {:induction false} InsertAtMost(s: seq<real>, x: real, m: real)
    requires x <= m && forall i :: 0 <= i < |s| ==> s[i] <= m
    ensures forall i :: 0 <= i < |s| + 1 ==> InsertSorted(s, x)[i] <= m
  {
    if s != [] && x < s[|s| - 1] { InsertAtMost(s[..|s| - 1], x, m); }
  }

  lemma AppendSorted(s: seq<real>, x: real)
    requires Sorted(s) && forall i :: 0 <= i < |s| ==> s[i] <= x
    ensures Sorted(s + [x])
  {
  }

  lemma {:induction false} InsertKeepsSorted(s: seq<real>, x: real)
    requires Sorted(s)
    ensures Sorted(InsertSorted(s, x))
  {
    if s != [] && x < s[|s| - 1] {
      var front, last := s[..|s| - 1], s[|s| - 1];
      InsertKeepsSorted(front, x);
      InsertAtMost(front, x, last);
      AppendSorted(InsertSorted(front, x), last);
    } else {
      AppendSorted(s, x);
    }
  }

  lemma {:induction false} SortIsSorted(l: seq<real>)
    ensures Sorted(Sort(l)) && multiset(Sort(l)) == multiset(l)
  {
    if l != [] {
      hide Sorted, InsertSorted;
      var front, last := l[..|l| - 1], l[|l| - 1];
      SortIsSorted(front);
      InsertKeepsSorted(Sort(front), last);
      InsertMultiset(Sort(front), last);
      assert l == front + [last];
    } else {
      assert Sorted([]);
    }
  }

  lemma LastIsMost(s: seq<real>, x: real)
    requires Sorted(s) && x in multiset(s)
    ensures s != [] && x <= s[|s| - 1]
  {
    assert x in s;
  }

  lemma FrontSorted(s: seq<real>)
    requires s != [] && Sorted(s)
    ensures Sorted(s[..|s| - 1])
  {
  }

  lemma DropLast(s: seq<real>)
    requires s != []
    ensures multiset(s[..|s| - 1]) == multiset(s) - multiset{s[|s| - 1]} && s[|s| - 1] in multiset(s)
  {
    assert s == s[..|s| - 1] + [s[|s| - 1]];
  }

  lemma {:induction false} SortedUnique(s: seq<real>, t: seq<real>)
    requires Sorted(s) && Sorted(t) && multiset(s) == multiset(t)
    ensures s == t
  {
    hide Sorted;
    SameLength(s, t);
    if s != [] {
      FrontSorted(s);
      FrontSorted(t);
      DropLast(s);
      DropLast(t);
      LastIsMost(s, t[|t| - 1]);
      LastIsMost(t, s[|s| - 1]);
      SortedUnique(s[..|s| - 1], t[..|t| - 1]);
      FromFront(s, t);
    }
  }

  lemma FromFront(s: seq<real>, t: seq<real>)
    requires s != [] && t != [] && s[..|s| - 1] == t[..|t| - 1] && s[|s| - 1] == t[|t| - 1]
    ensures s == t
  {
    assert s == s[..|s| - 1] + [s[|s| - 1]] && t == t[..|t| - 1] + [t[|t| - 1]];
  }

  /** Sorting has one possible result: whatever is sorted and has the list's items is it. */
  lemma SortIsOnlyOne(l: seq<real>, s: seq<real>)
    ensures s == Sort(l) <==> Sorted(s) && multiset(s) == multiset(l)
  {
    hide Sort, Sorted;
    SortIsSorted(l);
    if Sorted(s) && multiset(s) == multiset(l) {
      SortedUnique(s, Sort(l));
    }
  }

  /** Rank r of p is 1 + (n - 1) p; its integer part and what is left of it. */
  function Rank(n: nat, p: real): real {
    1.0 + (n as real - 1.0) * p
  }

  function Quantile(l: seq<real>, p: real): Result<real>
    requires 0.0 <= p <= 1.0
  {
    QuantileAt(Sort(l), p)
  }

  /** What is read off the sorted copy. */
  function QuantileAt(s: seq<real>, p: real): Result<real>
    requires 0.0 <= p <= 1.0
  {
    var n := |s|;
    var r := Rank(n, p);
    var i := r.Floor;
    var f := r - i as real;
    if n == 0 then IndexError
    else
      RankInside(n, p);
      if i < n then Ok(Mix(s[i - 1], s[i], f)) else Ok(s[i - 1])
  }

  /** Linear interpolation. */
  function Mix(a: real, b: real, f: real): real {
    (1.0 - f) * a + f * b
  }

  lemma RankInside(n: nat, p: real)
    requires n >= 1 && 0.0 <= p <= 1.0
    ensures 1.0 <= Rank(n, p) <= n as real && 1 <= Rank(n, p).Floor <= n
  {
    hide Rank;
    RankBetween(n, p);
    FloorInside(Rank(n, p), n);
  }

  lemma RankBetween(n: nat, p: real)
    requires n >= 1 && 0.0 <= p <= 1.0
    ensures 1.0 <= Rank(n, p) <= n as real
  {
    var m := n as real - 1.0;
    PartOf(m, p);
    assert Rank(n, p) == 1.0 + m * p;
  }

  lemma FloorInside(r: real, n: nat)
    requires 1.0 <= r <= n as real
    ensures 1 <= r.Floor <= n
  {
  }

  lemma NonNegative(x: real, y: real)
    requires x >= 0.0 && y >= 0.0
    ensures x * y >= 0.0
  {
  }

  lemma PartOf(m: real, p: real)
    requires m >= 0.0 && 0.0 <= p <= 1.0
    ensures 0.0 <= m * p <= m
  {
    NonNegative(m, p);
    NonNegative(m, 1.0 - p);
    assert m * (1.0 - p) == m - m * p;
  }

  /** The order statistics on either side of a rank; the last one has only itself. */
  function Below(n: nat, p: real): (i: nat)
    requires n >= 1 && 0.0 <= p <= 1.0
    ensures i < n
  {
    RankInside(n, p);
    Rank(n, p).Floor - 1
  }

  function Above(n: nat, p: real): (i: nat)
    requires n >= 1 && 0.0 <= p <= 1.0
    ensures i < n
  {
    if Below(n, p) + 1 < n then Below(n, p) + 1 else Below(n, p)
  }

  lemma Between(a: real, b: real, f: real)
    requires a <= b && 0.0 <= f <= 1.0
    ensures a <= Mix(a, b, f) <= b
  {
    NonNegative(b - a, f);
    NonNegative(b - a, 1.0 - f);
    assert Mix(a, b, f) - a == (b - a) * f;
    assert b - Mix(a, b, f) == (b - a) * (1.0 - f);
  }

  /** A quantile lies between adjacent order statistics. */
  lemma QuantileBetween(l: seq<real>, p: real)
    requires l != [] && 0.0 <= p <= 1.0
    ensures Quantile(l, p).Ok?
    ensures Sort(l)[Below(|l|, p)] <= Quantile(l, p).value <= Sort(l)[Above(|l|, p)]
  {
    hide Sort, Rank, Mix;
    SortIsSorted(l);
    RankInside(|l|, p);
    var r := Rank(|l|, p);
    if r.Floor < |l| {
      Between(Sort(l)[r.Floor - 1], Sort(l)[r.Floor], r - r.Floor as real);
    }
  }

  lemma RankMonotone(n: nat, p: real, q: real)
    requires n >= 1 && p <= q
    ensures Rank(n, p) <= Rank(n, q)
  {
    ScaleMonotone(n as real - 1.0, p, q);
  }

  lemma ScaleMonotone(m: real, p: real, q: real)
    requires m >= 0.0 && p <= q
    ensures m * p <= m * q
  {
    NonNegative(m, q - p);
    assert m * (q - p) == m * q - m * p;
  }

  lemma SlopeMonotone(a: real, b: real, f: real, g: real)
    requires a <= b && f <= g
    ensures Mix(a, b, f) <= Mix(a, b, g)
  {
    NonNegative(b - a, g - f);
    assert Mix(a, b, g) - Mix(a, b, f) == (b - a) * (g - f);
  }

  lemma QuantileMonotone(l: seq<real>, p: real, q: real)
    requires l != [] && 0.0 <= p <= q <= 1.0
    ensures Quantile(l, p).Ok? && Quantile(l, q).Ok? && Quantile(l, p).value <= Quantile(l, q).value
  {
    hide Sort, Rank, Mix;
    SortIsSorted(l);
    var n, s := |l|, Sort(l);
    RankInside(n, p);
    RankInside(n, q);
    RankMonotone(n, p, q);
    var i, j := Rank(n, p).Floor, Rank(n, q).Floor;
    QuantileBetween(l, p);
    QuantileBetween(l, q);
    if i == j {
      if i < n {
        SlopeMonotone(s[i - 1], s[i], Rank(n, p) - i as real, Rank(n, q) - j as real);
      }
    } else {
      assert i < j;
      assert s[Above(n, p)] <= s[Below(n, q)];
    }
  }

  lemma NoItems(p: real)
    requires 0.0 <= p <= 1.0
    ensures Quantile([], p) == IndexError && Trim([]) == IndexError
  {
  }

  lemma OneItem(x: real, p: real)
    requires 0.0 <= p <= 1.0
    ensures Quantile([x], p) == Ok(x)
  {
    hide Mix;
    SortIsOnlyOne([x], [x]);
    RankInside(1, p);
  }

  /** The rank of `p` when `p` is `k + f` of the `n - 1` steps from the least item to the greatest. */
  lemma RankOf(n: nat, p: real, k: nat, f: real)
    requires n >= 2 && k < n - 1 && 0.0 <= f <= 1.0 && p * (n - 1) as real == k as real + f
    ensures Rank(n, p) == (k + 1) as real + f
    ensures Rank(n, p).Floor == if f < 1.0 then k + 1 else k + 2
  {
    assert (n as real - 1.0) * p == p * (n - 1) as real;
    FloorOf(Rank(n, p), k + 1, f);
  }

  lemma FloorOf(r: real, i: nat, f: real)
    requires r == i as real + f && 0.0 <= f <= 1.0
    ensures r.Floor == if f < 1.0 then i else i + 1
  {
    if f == 1.0 {
      assert r == (i + 1) as real;
    }
  }

  lemma MixIs(a: real, b: real, f: real)
    ensures Mix(a, b, f) == a + f * (b - a)
  {
  }

  lemma MixEnds(a: real, b: real)
    ensures Mix(a, b, 0.0) == a && Mix(a, b, 1.0) == b
  {
  }

  lemma QuantileReads(s: seq<real>, p: real, i: nat)
    requires s != [] && 0.0 <= p <= 1.0 && Rank(|s|, p).Floor == i >= 1
    ensures i <= |s| && QuantileAt(s, p) ==
      Ok(if i < |s| then Mix(s[i - 1], s[i], Rank(|s|, p) - i as real) else s[i - 1])
  {
    hide Rank, Mix;
    RankInside(|s|, p);
  }

  lemma QuantileMixes(l: seq<real>, s: seq<real>, p: real, k: nat, f: real)
    requires Sorted(s) && multiset(s) == multiset(l)
    requires 0.0 <= p <= 1.0 && k < |s| - 1 && 0.0 <= f <= 1.0
    requires p * (|s| - 1) as real == k as real + f
    ensures Quantile(l, p) == Ok(Mix(s[k], s[k + 1], f))
  {
    hide Sort, Sorted, Rank, Mix, QuantileAt;
    SortIsOnlyOne(l, s);
    RankOf(|s|, p, k, f);
    if f < 1.0 {
      QuantileReads(s, p, k + 1);
    } else {
      QuantileReads(s, p, k + 2);
      MixEnds(s[k], s[k + 1]);
      if k + 2 < |s| { MixEnds(s[k + 1], s[k + 2]); }
    }
  }

  /** What is interpolated: with the items in order, the quantile lies at the fraction `f` of the way
      from the item at position `k` to the next one. */
  lemma QuantileValue(l: seq<real>, s: seq<real>, p: real, k: nat, f: real)
    requires Sorted(s) && multiset(s) == multiset(l)
    requires 0.0 <= p <= 1.0 && k < |s| - 1 && 0.0 <= f <= 1.0
    requires p * (|s| - 1) as real == k as real + f
    ensures Quantile(l, p).Ok? && Quantile(l, p).value == s[k] + f * (s[k + 1] - s[k])
  {
    hide Sorted, Rank, Mix, QuantileAt, Quantile;
    QuantileMixes(l, s, p, k, f);
    MixIs(s[k], s[k + 1], f);
  }

  lemma QuantileOfSorted(l: seq<real>, p: real)
    requires 0.0 <= p <= 1.0
    ensures Quantile(Sort(l), p) == Quantile(l, p)
  {
    hide QuantileAt, Sort;
    SortIsSorted(l);
    SortIsOnlyOne(Sort(l), Sort(l));
  }

  // ---------------------------------------------------------------- trim

  predicate InInterval(x: real, q1: real, q3: real) {
    q1 - (q3 - q1) * 1.5 <= x <= q3 + (q3 - q1) * 1.5
  }

  function Keep(s: seq<real>, q1: real, q3: real): seq<real> {
    if s == [] then []
    else Keep(s[..|s| - 1], q1, q3) + if InInterval(s[|s| - 1], q1, q3) then [s[|s| - 1]] else []
  }

  /** The median is computed too, and then not used; on the empty list it fails. */
  function Trim(l: seq<real>): Result<seq<real>> {
    var s := Sort(l);
    if l == [] then IndexError
    else
      match (Quantile(s, 0.25), Quantile(s, 0.75))
      case (Ok(q1), Ok(q3)) => Ok(Keep(s, q1, q3))
      case _ => IndexError
  }

  lemma IntervalConvex(x: real, y: real, z: real, q1: real, q3: real)
    requires x <= y <= z && InInterval(x, q1, q3) && InInterval(z, q1, q3)
    ensures InInterval(y, q1, q3)
  {
  }

  lemma Ordered(s: seq<real>, i: nat, j: nat)
    requires Sorted(s) && i <= j < |s|
    ensures s[i] <= s[j]
  {
  }

  lemma SliceEnd<T>(s: seq<T>, a: nat, n: nat)
    requires a <= n < |s|
    ensures s[a..n + 1] == s[a..n] + [s[n]]
  {
  }

  /** One more item of a sorted list: the slice of the items inside the interval grows by it or stays. */
  lemma GrowSlice(s: seq<real>, q1: real, q3: real, a: nat, b: nat) returns (a': nat, b': nat)
    requires s != [] && Sorted(s) && a <= b < |s|
    requires forall k :: 0 <= k < |s| - 1 ==> (a <= k < b <==> InInterval(s[k], q1, q3))
    ensures a' <= b' <= |s|
    ensures forall k :: 0 <= k < |s| ==> (a' <= k < b' <==> InInterval(s[k], q1, q3))
    ensures s[a'..b'] == s[a..b] + if InInterval(s[|s| - 1], q1, q3) then [s[|s| - 1]] else []
  {
    hide InInterval, Sorted;
    var n := |s| - 1;
    a', b' := a, b;
    if InInterval(s[n], q1, q3) {
      b' := n + 1;
      if a == b {
        a' := n;
        SliceEnd(s, n, n);
      } else {
        if b < n {
          Ordered(s, b - 1, b);
          Ordered(s, b, n);
          IntervalConvex(s[b - 1], s[b], s[n], q1, q3);
        }
        SliceEnd(s, a, n);
      }
    }
  }

  /** Filtering a sorted list by an interval leaves a slice of it. */
  lemma {:induction false} KeepIsSlice(s: seq<real>, q1: real, q3: real) returns (a: nat, b: nat)
    requires Sorted(s)
    ensures a <= b <= |s| && Keep(s, q1, q3) == s[a..b]
    ensures forall k :: 0 <= k < |s| ==> (a <= k < b <==> InInterval(s[k], q1, q3))
  {
    hide InInterval, Sorted;
    if s == [] {
      a, b := 0, 0;
    } else {
      var front := s[..|s| - 1];
      FrontSorted(s);
      a, b := KeepIsSlice(front, q1, q3);
      assert front[a..b] == s[a..b];
      assert forall k :: 0 <= k < |front| ==> s[k] == front[k];
      a, b := GrowSlice(s, q1, q3, a, b);
    }
  }

  /** The two quartiles have an element between them, or nearly so when there are but two. */
  lemma SomeKept(s: seq<real>) returns (k: nat)
    requires s != [] && Sorted(s)
    ensures Quantile(s, 0.25).Ok? && Quantile(s, 0.75).Ok?
    ensures k < |s| && InInterval(s[k], Quantile(s, 0.25).value, Quantile(s, 0.75).value)
  {
    hide Sort;
    var n := |s|;
    SortIsOnlyOne(s, s);
    QuantileBetween(s, 0.25);
    QuantileBetween(s, 0.75);
    QuantileMonotone(s, 0.25, 0.75);
    if n == 2 {
      k := 0;
      assert Rank(n, 0.25) == 1.25 && Rank(n, 0.75) == 1.75;
      assert Quantile(s, 0.25) == Ok(Mix(s[0], s[1], 0.25)) && Quantile(s, 0.75) == Ok(Mix(s[0], s[1], 0.75));
    } else {
      k := Above(n, 0.25);
      assert k <= Below(n, 0.75) by {
        if n >= 3 {
          assert Rank(n, 0.75) >= Rank(n, 0.25) + 1.0;
        }
      }
    }
  }

  /** Trimming a non-empty list leaves a non-empty contiguous slice of the sorted list: exactly
      the values within one and a half interquartile ranges of the quartiles. */
  lemma TrimIsSlice(l: seq<real>) returns (a: nat, b: nat)
    requires l != []
    ensures a < b <= |l| && Trim(l) == Ok(Sort(l)[a..b])
    ensures Quantile(l, 0.25).Ok? && Quantile(l, 0.75).Ok?
    ensures forall k :: 0 <= k < |l| ==>
      var q1, q3 := Quantile(l, 0.25).value, Quantile(l, 0.75).value;
      (a <= k < b <==> q1 - 1.5 * (q3 - q1) <= Sort(l)[k] <= q3 + 1.5 * (q3 - q1))
  {
    hide Sort, Sorted, Keep, Quantile;
    var s := Sort(l);
    SortIsSorted(l);
    QuantileOfSorted(l, 0.25);
    QuantileOfSorted(l, 0.75);
    var k := SomeKept(s);
    a, b := KeepIsSlice(s, Quantile(s, 0.25).value, Quantile(s, 0.75).value);
  }
}
