/** Lists without repetitions, and their elements as sets and multisets. */
module Sequences {

  ghost predicate Distinct<T>(s: seq<T>) {
    forall i, j :: 0 <= i < j < |s| ==> s[i] != s[j]
  }

  function Elements<T>(s: seq<T>): set<T> {
    set x | x in s
  }

  /** Pigeonhole. */
  lemma {:induction false} DistinctFits<T>(s: seq<T>, pool: set<T>)
    requires Distinct(s) && forall x :: x in s ==> x in pool
    ensures |s| <= |pool|
  {
    if s != [] {
      var last := s[|s| - 1];
      var front := s[..|s| - 1];
      assert forall x :: x in front ==> x in pool - {last};
      DistinctFits(front, pool - {last});
    }
  }

  lemma {:induction false} DistinctCount<T>(s: seq<T>, x: T)
    requires Distinct(s)
    ensures multiset(s)[x] == if x in s then 1 else 0
  {
    if s != [] {
      var front, last := s[..|s| - 1], s[|s| - 1];
      DistinctCount(front, x);
      assert s == front + [last];
    }
  }

  lemma SameElements<T>(s: seq<T>, t: seq<T>)
    requires Distinct(s) && Distinct(t) && Elements(s) == Elements(t)
    ensures multiset(s) == multiset(t)
  {
    forall x ensures multiset(s)[x] == multiset(t)[x] {
      DistinctCount(s, x);
      DistinctCount(t, x);
      assert x in s <==> x in Elements(s);
      assert x in t <==> x in Elements(t);
    }
  }

  lemma SameLength<T>(s: seq<T>, t: seq<T>)
    requires multiset(s) == multiset(t)
    ensures |s| == |t|
  {
    assert |multiset(s)| == |s| && |multiset(t)| == |t|;
  }

  lemma {:induction false} DistinctSize<T>(s: seq<T>)
    requires Distinct(s)
    ensures |Elements(s)| == |s|
  {
    if s != [] {
      var front, last := s[..|s| - 1], s[|s| - 1];
      DistinctSize(front);
      assert Elements(s) == Elements(front) + {last};
    }
  }

  /** A set that contains, with an item of the list, everything before it is a prefix of the list. */
  lemma {:induction false} PrefixSet<T>(s: seq<T>, low: set<T>)
    requires Distinct(s) && low <= Elements(s)
    requires forall i, j :: 0 <= i <= j < |s| && s[j] in low ==> s[i] in low
    ensures |low| <= |s| && Elements(s[..|low|]) == low
  {
    if s == [] {
      assert low == {};
    } else if s[|s| - 1] in low {
      assert low == Elements(s);
      DistinctSize(s);
      assert s[..|s|] == s;
    } else {
      var front := s[..|s| - 1];
      forall x | x in low ensures x in Elements(front) {
        assert x in s;
      }
      PrefixSet(front, low);
      assert front[..|low|] == s[..|low|];
    }
  }

  lemma {:induction false} ElementsFit<T>(s: seq<T>)
    ensures |Elements(s)| <= |s|
  {
    if s != [] {
      var front, last := s[..|s| - 1], s[|s| - 1];
      ElementsFit(front);
      assert Elements(s) == Elements(front) + {last};
    }
  }

  lemma SliceElements<T>(s: seq<T>, i: nat, j: nat)
    requires Distinct(s) && i <= j <= |s|
    ensures Elements(s[i..j]) == Elements(s[..j]) - Elements(s[..i])
  {
  }
}
