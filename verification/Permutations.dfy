/** `permutations` in `rad_util.py`: the first item inserted at every position of every
    permutation of the others. */
module Permutations {
  import opened Sequences

  function Factorial(n: nat): nat {
    if n == 0 then 1 else n * Factorial(n - 1)
  }

  function Insert<T>(s: seq<T>, i: nat, item: T): seq<T>
    requires i <= |s|
  {
    s[..i] + [item] + s[i..]
  }

  /** The item at the first `k` positions of one list. */
  function InsertEach<T>(sub: seq<T>, item: T, k: nat): seq<seq<T>>
    requires k <= |sub| + 1
  {
    seq(k, i requires 0 <= i < k => Insert(sub, i, item))
  }

  /** The item at every position of every list; all have `n` items. */
  function InsertAll<T>(subs: seq<seq<T>>, item: T, n: nat): seq<seq<T>>
    requires forall a :: 0 <= a < |subs| ==> |subs[a]| == n
  {
    if subs == [] then []
    else InsertAll(subs[..|subs| - 1], item, n) + InsertEach(subs[|subs| - 1], item, n + 1)
  }

  function Perms<T>(s: seq<T>): (ps: seq<seq<T>>)
    ensures forall a :: 0 <= a < |ps| ==> |ps[a]| == |s|
  {
    if |s| <= 1 then [s]
    else
      InsertedLengths(Perms(s[1..]), s[0], |s| - 1);
      InsertAll(Perms(s[1..]), s[0], |s| - 1)
  }

  lemma {:induction false} InsertedLengths<T>(subs: seq<seq<T>>, item: T, n: nat)
    requires forall a :: 0 <= a < |subs| ==> |subs[a]| == n
    ensures forall a :: 0 <= a < |InsertAll(subs, item, n)| ==> |InsertAll(subs, item, n)[a]| == n + 1
  {
    if subs != [] { InsertedLengths(subs[..|subs| - 1], item, n); }
  }

  lemma EachGrows<T>(sub: seq<T>, item: T, i: nat)
    requires i <= |sub|
    ensures InsertEach(sub, item, i + 1) == InsertEach(sub, item, i) + [Insert(sub, i, item)]
  {
  }

  lemma AllGrows<T>(subs: seq<seq<T>>, item: T, n: nat, a: nat)
    requires a < |subs| && forall a :: 0 <= a < |subs| ==> |subs[a]| == n
    ensures InsertAll(subs[..a + 1], item, n) == InsertAll(subs[..a], item, n) + InsertEach(subs[a], item, n + 1)
  {
    hide InsertEach;
    assert subs[..a + 1][..a] == subs[..a];
  }

  lemma NoneInserted<T>(sub: seq<T>, item: T, n: nat)
    ensures InsertEach(sub, item, 0) == [] && InsertAll([], item, n) == []
  {
  }

  lemma PermsUnfold<T>(s: seq<T>)
    ensures |s| > 1 ==> Perms(s) == InsertAll(Perms(s[1..]), s[0], |s| - 1)
    ensures |s| <= 1 ==> Perms(s) == [s]
  {
  }

  /** The recursive function with its two loops. */
  method Permute<T>(inputList: seq<T>) returns (outLists: seq<seq<T>>)
    ensures outLists == Perms(inputList)
    decreases |inputList|
  {
    hide Perms, InsertAll, InsertEach;
    PermsUnfold(inputList);
    outLists := [];
    if |inputList| > 1 {
      var item := inputList[0];
      var subLists := Permute(inputList[1..]);
      NoneInserted([], item, |inputList| - 1);
      for a := 0 to |subLists|
        invariant outLists == InsertAll(subLists[..a], item, |inputList| - 1)
      {
        var subList := subLists[a];
        ghost var before := outLists;
        NoneInserted(subList, item, 0);
        for i := 0 to |inputList|
          invariant outLists == before + InsertEach(subList, item, i)
        {
          EachGrows(subList, item, i);
          var newList := subList[..i] + [item] + subList[i..];
          outLists := outLists + [newList];
        }
        AllGrows(subLists, item, |inputList| - 1, a);
      }
      assert subLists[..|subLists|] == subLists;
    } else {
      outLists := [inputList];
    }
  }

  // ---------------------------------------------------------------- how many

  lemma {:induction false} InsertedCount<T>(subs: seq<seq<T>>, item: T, n: nat)
    requires forall a :: 0 <= a < |subs| ==> |subs[a]| == n
    ensures |InsertAll(subs, item, n)| == |subs| * (n + 1)
  {
    hide InsertEach;
    if subs != [] {
      var front := subs[..|subs| - 1];
      InsertedCount(front, item, n);
      assert |InsertEach(subs[|subs| - 1], item, n + 1)| == n + 1 by { EachCount(subs[|subs| - 1], item, n + 1); }
      Distribute(|front|, n + 1);
    }
  }

  lemma EachCount<T>(sub: seq<T>, item: T, k: nat)
    requires k <= |sub| + 1
    ensures |InsertEach(sub, item, k)| == k
  {
  }

  lemma Distribute(a: nat, m: nat)
    ensures a * m + m == (a + 1) * m && a * m == m * a
  {
  }

  lemma {:induction false} PermsCount<T>(s: seq<T>)
    ensures |Perms(s)| == Factorial(|s|)
  {
    hide InsertAll;
    if |s| <= 1 {
      assert Factorial(1) == 1;
    } else {
      PermsCount(s[1..]);
      InsertedCount(Perms(s[1..]), s[0], |s| - 1);
      Distribute(|Perms(s[1..])|, |s|);
    }
  }

  // ---------------------------------------------------------------- which ones

  lemma {:induction false} InsertAllHas<T>(subs: seq<seq<T>>, item: T, n: nat, p: seq<T>)
    requires forall a :: 0 <= a < |subs| ==> |subs[a]| == n
    ensures p in InsertAll(subs, item, n) <==>
      exists sub, i :: sub in subs && 0 <= i <= n && |sub| == n && p == Insert(sub, i, item)
  {
    if subs != [] {
      var front, last := subs[..|subs| - 1], subs[|subs| - 1];
      InsertAllHas(front, item, n, p);
      assert subs == front + [last];
      assert forall i :: 0 <= i <= n ==> InsertEach(last, item, n + 1)[i] == Insert(last, i, item);
    }
  }

  lemma InsertMultiset<T>(s: seq<T>, i: nat, item: T)
    requires i <= |s|
    ensures multiset(Insert(s, i, item)) == multiset(s) + multiset{item}
  {
    assert s == s[..i] + s[i..];
  }

  /** The lists returned are exactly the rearrangements of the input, repeated items or not. */
  lemma {:induction false} PermsExact<T>(s: seq<T>, p: seq<T>)
    ensures p in Perms(s) <==> multiset(p) == multiset(s)
    decreases |s|
  {
    hide Perms, Insert;
    if |s| <= 1 {
      PermsUnfold(s);
      SmallMultiset(s, p);
    } else {
      PermsHas(s, p);
      if p in Perms(s) {
        var sub, i :| sub in Perms(s[1..]) && 0 <= i < |s| && |sub| == |s| - 1 && p == Insert(sub, i, s[0]);
        PermsExact(s[1..], sub);
        InsertedLike(s, sub, i);
      }
      if multiset(p) == multiset(s) {
        var i, sub := TakeOutLike(s, p);
        PermsExact(s[1..], sub);
      }
    }
  }

  lemma PermsHas<T>(s: seq<T>, p: seq<T>)
    requires |s| > 1
    ensures p in Perms(s) <==>
      exists sub, i :: sub in Perms(s[1..]) && 0 <= i < |s| && |sub| == |s| - 1 && p == Insert(sub, i, s[0])
  {
    hide InsertAll, Insert, Perms;
    PermsUnfold(s);
    InsertAllHas(Perms(s[1..]), s[0], |s| - 1, p);
  }

  lemma InsertedLike<T>(s: seq<T>, sub: seq<T>, i: nat)
    requires s != [] && i <= |sub| && multiset(sub) == multiset(s[1..])
    ensures multiset(Insert(sub, i, s[0])) == multiset(s)
  {
    hide Insert;
    HeadApart(s);
    InsertMultiset(sub, i, s[0]);
  }

  /** A rearrangement is a rearrangement of the rest with the first item put back. */
  lemma TakeOutLike<T>(s: seq<T>, p: seq<T>) returns (i: nat, sub: seq<T>)
    requires s != [] && multiset(p) == multiset(s)
    ensures i < |s| && |sub| == |s| - 1 && p == Insert(sub, i, s[0]) && multiset(sub) == multiset(s[1..])
  {
    hide Insert;
    HeadApart(s);
    i, sub := TakeOut(p, s[0]);
    InsertMultiset(sub, i, s[0]);
    assert multiset(sub) == multiset(p) - multiset{s[0]} && multiset(s[1..]) == multiset(s) - multiset{s[0]};
    SameLength(sub, s[1..]);
  }

  lemma HeadApart<T>(s: seq<T>)
    requires s != []
    ensures multiset(s) == multiset(s[1..]) + multiset{s[0]} && s[0] in multiset(s)
  {
    assert s == [s[0]] + s[1..];
  }

  lemma TakeOut<T>(p: seq<T>, item: T) returns (i: nat, sub: seq<T>)
    requires item in multiset(p)
    ensures i <= |sub| && p == Insert(sub, i, item)
  {
    assert item in p;
    i :| 0 <= i < |p| && p[i] == item;
    sub := p[..i] + p[i + 1..];
  }

  lemma SmallMultiset<T>(s: seq<T>, p: seq<T>)
    requires |s| <= 1
    ensures p == s <==> multiset(p) == multiset(s)
  {
    if multiset(p) == multiset(s) {
      assert |multiset(p)| == |p| && |multiset(s)| == |s|;
      if |s| == 1 {
        assert p == [p[0]] && s == [s[0]];
        assert s[0] in multiset(p);
      }
    }
  }

  /** In which order: every permutation of the rest in turn, with the first item put at each of its
      positions in turn. */
  lemma PermsOrder<T>(s: seq<T>, a: nat, i: nat)
    requires |s| > 1 && a < |Perms(s[1..])| && i < |s|
    ensures a * |s| + i < |Perms(s)|
    ensures var sub := Perms(s[1..])[a]; Perms(s)[a * |s| + i] == sub[..i] + [s[0]] + sub[i..]
  {
    hide Perms, InsertAll;
    PermsUnfold(s);
    var at := InsertAllAt(Perms(s[1..]), s[0], |s| - 1, a, i);
  }

  // ---------------------------------------------------------------- no list twice

  /** What is left of a list after the first occurrence of an item. */
  ghost function Without<T>(p: seq<T>, item: T): seq<T> {
    if p == [] then [] else if p[0] == item then p[1..] else [p[0]] + Without(p[1..], item)
  }

  lemma {:induction false} WithoutInserted<T>(s: seq<T>, i: nat, item: T)
    requires i <= |s| && item !in s
    ensures Without(Insert(s, i, item), item) == s
  {
    if i > 0 {
      WithoutInserted(s[1..], i - 1, item);
      assert Insert(s, i, item)[1..] == Insert(s[1..], i - 1, item);
    }
  }

  lemma FirstAt<T>(s: seq<T>, i: nat, item: T)
    requires i <= |s| && item !in s
    ensures Insert(s, i, item)[i] == item && forall m :: 0 <= m < i ==> Insert(s, i, item)[m] != item
  {
  }

  lemma InsertInjective<T>(s: seq<T>, i: nat, t: seq<T>, j: nat, item: T)
    requires i <= |s| && j <= |t| && item !in s && item !in t && Insert(s, i, item) == Insert(t, j, item)
    ensures s == t && i == j
  {
    WithoutInserted(s, i, item);
    WithoutInserted(t, j, item);
    FirstAt(s, i, item);
    FirstAt(t, j, item);
  }

  lemma DistinctConcat<T>(a: seq<T>, b: seq<T>)
    requires Distinct(a) && Distinct(b) && forall x :: x in a ==> x !in b
    ensures Distinct(a + b)
  {
    forall i, j | 0 <= i < j < |a + b| ensures (a + b)[i] != (a + b)[j] {
      if i < |a| && j >= |a| { assert a[i] in a && b[j - |a|] in b; }
    }
  }

  lemma {:induction false} InsertAllDistinct<T>(subs: seq<seq<T>>, item: T, n: nat)
    requires Distinct(subs) && forall a :: 0 <= a < |subs| ==> |subs[a]| == n && item !in subs[a]
    ensures Distinct(InsertAll(subs, item, n))
  {
    if subs != [] {
      var front, last := subs[..|subs| - 1], subs[|subs| - 1];
      InsertAllDistinct(front, item, n);
      var each := InsertEach(last, item, n + 1);
      forall i, j | 0 <= i < j < |each| ensures each[i] != each[j] {
        if each[i] == each[j] { InsertInjective(last, i, last, j, item); }
      }
      forall p | p in InsertAll(front, item, n) ensures p !in each {
        InsertAllHas(front, item, n, p);
        var sub, i :| sub in front && 0 <= i <= n && |sub| == n && p == Insert(sub, i, item);
        forall j | 0 <= j < |each| ensures each[j] != p {
          if each[j] == p { InsertInjective(sub, i, last, j, item); }
        }
      }
      DistinctConcat(InsertAll(front, item, n), each);
    }
  }

  lemma {:induction false} PermsDistinct<T>(s: seq<T>)
    requires Distinct(s)
    ensures Distinct(Perms(s))
  {
    if |s| > 1 {
      var subs := Perms(s[1..]);
      PermsDistinct(s[1..]);
      forall a | 0 <= a < |subs| ensures s[0] !in subs[a] {
        PermsExact(s[1..], subs[a]);
        assert s[0] in subs[a] <==> s[0] in multiset(subs[a]);
        assert s[0] in s[1..] <==> s[0] in multiset(s[1..]);
      }
      InsertAllDistinct(subs, s[0], |s| - 1);
    }
  }

  /** An item next to its like can be inserted on either side of it. */
  lemma InsertTwice<T>(sub: seq<T>, k: nat)
    requires k < |sub|
    ensures Insert(sub, k, sub[k]) == Insert(sub, k + 1, sub[k])
  {
  }

  lemma {:induction false} InsertAllAt<T>(subs: seq<seq<T>>, item: T, n: nat, a: nat, i: nat) returns (at: nat)
    requires a < |subs| && i <= n && forall a :: 0 <= a < |subs| ==> |subs[a]| == n
    ensures at < |InsertAll(subs, item, n)| && InsertAll(subs, item, n)[at] == Insert(subs[a], i, item)
    ensures at == a * (n + 1) + i
  {
    var front := subs[..|subs| - 1];
    InsertedCount(front, item, n);
    if a == |subs| - 1 {
      at := |InsertAll(front, item, n)| + i;
    } else {
      at := InsertAllAt(front, item, n, a, i);
    }
  }

  lemma OffsetsGrow(a: nat, b: nat, m: nat)
    requires a < b && m > 0
    ensures a * m < b * m
  {
  }

  /** Two equal sublists give equal results. */
  lemma RepeatedSub<T>(subs: seq<seq<T>>, item: T, n: nat, a: nat, b: nat)
    requires a < b < |subs| && subs[a] == subs[b] && forall a :: 0 <= a < |subs| ==> |subs[a]| == n
    ensures !Distinct(InsertAll(subs, item, n))
  {
    hide InsertAll;
    var i := InsertAllAt(subs, item, n, a, 0);
    var j := InsertAllAt(subs, item, n, b, 0);
    OffsetsGrow(a, b, n + 1);
  }

  /** So does one sublist that has the item already. */
  lemma RepeatedInsert<T>(subs: seq<seq<T>>, n: nat, a: nat, k: nat)
    requires a < |subs| && k < n && forall a :: 0 <= a < |subs| ==> |subs[a]| == n
    ensures !Distinct(InsertAll(subs, subs[a][k], n))
  {
    hide InsertAll;
    InsertTwice(subs[a], k);
    var i := InsertAllAt(subs, subs[a][k], n, a, k);
    var j := InsertAllAt(subs, subs[a][k], n, a, k + 1);
  }

  lemma {:induction false} RepeatedItem<T>(s: seq<T>)
    requires !Distinct(s)
    ensures !Distinct(Perms(s))
  {
    hide InsertAll;
    var subs, n := Perms(s[1..]), |s| - 1;
    if !Distinct(s[1..]) {
      RepeatedItem(s[1..]);
      var a, b :| 0 <= a < b < |subs| && subs[a] == subs[b];
      RepeatedSub(subs, s[0], n, a, b);
    } else {
      PermsExact(s[1..], s[1..]);
      var a :| 0 <= a < |subs| && subs[a] == s[1..];
      var k := HeadAgain(s);
      RepeatedInsert(subs, n, a, k);
    }
  }

  lemma HeadAgain<T>(s: seq<T>) returns (k: nat)
    requires !Distinct(s) && Distinct(s[1..])
    ensures k < |s| - 1 && s[1..][k] == s[0]
  {
    forall a, b | 1 <= a < b < |s| ensures s[a] != s[b] {
      assert s[1..][a - 1] == s[a] && s[1..][b - 1] == s[b];
    }
    var i, j :| 0 <= i < j < |s| && s[i] == s[j];
    k := j - 1;
  }

  /** No list is returned twice exactly when no item occurs twice. */
  lemma PermsDistinctIff<T>(s: seq<T>)
    ensures Distinct(Perms(s)) <==> Distinct(s)
  {
    if Distinct(s) { PermsDistinct(s); } else { RepeatedItem(s); }
  }
}
