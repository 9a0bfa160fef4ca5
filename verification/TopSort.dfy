/** Dependency sorting of (parent, child) pairs: `topsort` (Kahn's algorithm on a list
    that grows while it is traversed) and `topsort_levels`. */
module TopSort {
  import opened Digraphs
  import opened Sequences

  type PairList = seq<(Item, Item)>
  type ParentCounts = map<Item, int>
  type ChildLists = map<Item, seq<Item>>

  datatype SortResult =
    | Sorted(answer: seq<Item>)
    | CycleError(answer: seq<Item>, numParents: ParentCounts, children: ChildLists)

  datatype LevelsEnd = Exhausted | LevelsCycleError(numParents: ParentCounts, children: ChildLists)

  function EdgesOf(pairs: PairList): Edges {
    set e | e in pairs
  }

  function Nodes(pairs: PairList): set<Item> {
    (set e | e in pairs :: e.0) + (set e | e in pairs :: e.1)
  }

  /** The number of pairs, with multiplicity, into `x` from parents outside `gone`. */
  ghost function InCount(pairs: PairList, x: Item, gone: set<Item>): nat {
    if pairs == [] then 0
    else
      var last := pairs[|pairs| - 1];
      InCount(pairs[..|pairs| - 1], x, gone) + if last.1 == x && last.0 !in gone then 1 else 0
  }

  /** The children of `p`, in the order of the pairs, with repetitions. */
  ghost function ChildrenOf(pairs: PairList, p: Item): seq<Item> {
    if pairs == [] then []
    else
      var last := pairs[|pairs| - 1];
      ChildrenOf(pairs[..|pairs| - 1], p) + if last.0 == p then [last.1] else []
  }

  /** The two dictionaries describe what is left of the graph once `gone` was removed. */
  ghost predicate Represents(nodes: set<Item>, pairs: PairList, gone: set<Item>,
                             numParents: ParentCounts, children: ChildLists) {
    && numParents.Keys == nodes - gone
    && (forall x :: x in numParents ==> numParents[x] == InCount(pairs, x, gone))
    && children.Keys <= numParents.Keys
    && (forall p :: p in numParents ==>
          ChildrenOf(pairs, p) == if p in children then children[p] else [])
  }

  /** Stated on sets, so that the verifier does not chase parents of parents. */
  ghost predicate CoversEdges(nodes: set<Item>, pairs: PairList) {
    Nodes(pairs) <= nodes
  }

  lemma EdgesCovered(nodes: set<Item>, pairs: PairList)
    requires CoversEdges(nodes, pairs)
    ensures forall e :: e in EdgesOf(pairs) ==> e.0 in nodes && e.1 in nodes
  {
  }

  // ---------------------------------------------------------------- specification

  ghost predicate Lists(s: seq<Item>, xs: set<Item>) {
    Distinct(s) && forall x :: x in s <==> x in xs
  }

  /** Sorted by the length of the longest chain ending in each item. */
  ghost predicate DepthOrdered(es: Edges, s: seq<Item>) {
    forall i, j, k: nat :: 0 <= i <= j < |s| && HasChain(es, s[i], k) ==> HasChain(es, s[j], k)
  }

  ghost predicate ParentsFirst(es: Edges, s: seq<Item>) {
    forall i, j :: 0 <= i < |s| && 0 <= j < |s| && (s[i], s[j]) in es ==> i < j
  }

  /** The item at position `j` becomes parentless when the last of its parents, at position `r`, is
      processed, at its last occurrence, number `c`, among that parent's children. */
  ghost predicate ReleasedAt(pairs: PairList, answer: seq<Item>, j: nat, r: nat, c: nat) {
    && j < |answer| && r < |answer|
    && c < |ChildrenOf(pairs, answer[r])| && ChildrenOf(pairs, answer[r])[c] == answer[j]
    && answer[j] !in ChildrenOf(pairs, answer[r])[c + 1..]
    && forall y :: (y, answer[j]) in pairs ==> y in answer[..r + 1]
  }

  predicate Sooner(r: nat, c: nat, r': nat, c': nat) {
    r < r' || (r == r' && c < c')
  }

  /** Items with parents are listed in the order in which they become parentless. */
  ghost predicate ReleaseOrdered(pairs: PairList, answer: seq<Item>) {
    forall i, j, r, c, r', c' ::
      0 <= i < j && ReleasedAt(pairs, answer, i, r, c) && ReleasedAt(pairs, answer, j, r', c') ==>
        Sooner(r, c, r', c')
  }

  ghost predicate Released(pairs: PairList, answer: seq<Item>, j: nat) {
    exists r: nat, c: nat :: ReleasedAt(pairs, answer, j, r, c)
  }

  ghost predicate Parentless(pairs: PairList, x: Item) {
    forall e :: e in pairs ==> e.1 != x
  }

  /** Items without parents come first, and for each other one there is such a moment. */
  ghost predicate RootsFirst(pairs: PairList, answer: seq<Item>) {
    && (forall j :: 0 <= j < |answer| ==> Parentless(pairs, answer[j]) || Released(pairs, answer, j))
    && (forall j, k :: 0 <= j < k < |answer| && Parentless(pairs, answer[k]) ==> Parentless(pairs, answer[j]))
  }

  ghost function BoundedNodes(nodes: set<Item>, es: Edges): set<Item> {
    set x | x in nodes && Bounded(es, x)
  }

  /** What a cycle error reports: exactly the nodes on or below a cycle (those with arbitrarily
      long chains into them), the number of pairs into each from the others, and their children. */
  ghost predicate ReportsUnbounded(nodes: set<Item>, pairs: PairList,
                                   numParents: ParentCounts, children: ChildLists) {
    Represents(nodes, pairs, BoundedNodes(nodes, EdgesOf(pairs)), numParents, children)
  }

  ghost predicate IsLevel(nodes: set<Item>, es: Edges, level: seq<Item>, k: nat) {
    level != [] && Distinct(level) && forall x :: x in level <==> x in nodes && HasDepth(es, x, k)
  }

  ghost predicate AreLevels(nodes: set<Item>, es: Edges, levels: seq<seq<Item>>) {
    forall k :: 0 <= k < |levels| ==> IsLevel(nodes, es, levels[k], k)
  }

  ghost predicate Listed(levels: seq<seq<Item>>, x: Item) {
    exists k :: 0 <= k < |levels| && x in levels[k]
  }

  // ---------------------------------------------------------------- counting pairs

  lemma {:induction false} CountZero(pairs: PairList, x: Item, gone: set<Item>)
    ensures InCount(pairs, x, gone) == 0 <==> forall e :: e in pairs && e.1 == x ==> e.0 in gone
  {
    if pairs != [] {
      var front, last := pairs[..|pairs| - 1], pairs[|pairs| - 1];
      CountZero(front, x, gone);
      assert pairs == front + [last];
    }
  }

  /** Removing `p` lowers every count by its number of occurrences among `p`'s children. */
  lemma {:induction false} CountRemove(pairs: PairList, x: Item, gone: set<Item>, p: Item)
    requires p !in gone
    ensures InCount(pairs, x, gone + {p}) == InCount(pairs, x, gone) - multiset(ChildrenOf(pairs, p))[x]
  {
    if pairs != [] {
      CountRemove(pairs[..|pairs| - 1], x, gone, p);
    }
  }

  lemma {:induction false} ChildrenAreEdges(pairs: PairList, p: Item, c: Item)
    ensures c in ChildrenOf(pairs, p) <==> (p, c) in pairs
  {
    if pairs != [] {
      var front, last := pairs[..|pairs| - 1], pairs[|pairs| - 1];
      ChildrenAreEdges(front, p, c);
      assert pairs == front + [last];
    }
  }

  ghost function PairsInto(pairs: PairList, x: Item, gone: set<Item>): set<nat> {
    set i: nat | i < |pairs| && pairs[i].1 == x && pairs[i].0 !in gone
  }

  /** The count is the number of pairs. */
  lemma {:induction false} CountIs(pairs: PairList, x: Item, gone: set<Item>)
    ensures InCount(pairs, x, gone) == |PairsInto(pairs, x, gone)|
  {
    if pairs != [] {
      var n := |pairs| - 1;
      var before, after := PairsInto(pairs[..n], x, gone), PairsInto(pairs, x, gone);
      CountIs(pairs[..n], x, gone);
      if pairs[n].1 == x && pairs[n].0 !in gone {
        assert after == before + {n};
      } else {
        assert after == before;
      }
    }
  }

  /** `at` are the positions of all pairs with the parent `p`, in order, and `kids` their children. */
  ghost predicate ChildrenAt(pairs: PairList, p: Item, kids: seq<Item>, at: seq<nat>) {
    && |at| == |kids|
    && (forall k :: 0 <= k < |at| ==> at[k] < |pairs| && pairs[at[k]] == (p, kids[k]))
    && (forall k, m :: 0 <= k < m < |at| ==> at[k] < at[m])
    && (forall i: nat :: i < |pairs| && pairs[i].0 == p ==> i in at)
  }

  lemma OneMorePair(pairs: PairList, p: Item, kids: seq<Item>, at: seq<nat>, e: (Item, Item))
    requires ChildrenAt(pairs, p, kids, at)
    ensures if e.0 == p then ChildrenAt(pairs + [e], p, kids + [e.1], at + [|pairs|])
            else ChildrenAt(pairs + [e], p, kids, at)
  {
    if e.0 == p {
      forall i: nat | i < |pairs + [e]| && (pairs + [e])[i].0 == p ensures i in at + [|pairs|] {
        if i < |pairs| { assert pairs[i].0 == p; }
      }
    }
  }

  lemma NoPairs(p: Item)
    ensures ChildrenAt([], p, [], [])
  {
  }

  /** The children of a parent are those of all its pairs, in the order of the pairs. */
  lemma {:induction false} ChildrenInOrder(pairs: PairList, p: Item) returns (at: seq<nat>)
    ensures ChildrenAt(pairs, p, ChildrenOf(pairs, p), at)
  {
    hide ChildrenAt;
    if pairs == [] {
      at := [];
      NoPairs(p);
      assert ChildrenOf(pairs, p) == [];
    } else {
      var front, last := pairs[..|pairs| - 1], pairs[|pairs| - 1];
      at := ChildrenInOrder(front, p);
      OneMorePair(front, p, ChildrenOf(front, p), at, last);
      assert pairs == front + [last];
      assert ChildrenOf(pairs, p) == if last.0 == p then ChildrenOf(front, p) + [last.1] else ChildrenOf(front, p);
      if last.0 == p {
        at := at + [|front|];
      }
    }
  }

  lemma CountsExtend(pairs: PairList, i: nat, x: Item)
    requires i < |pairs|
    ensures InCount(pairs[..i + 1], x, {}) == InCount(pairs[..i], x, {}) + if pairs[i].1 == x then 1 else 0
    ensures ChildrenOf(pairs[..i + 1], x) == ChildrenOf(pairs[..i], x) + if pairs[i].0 == x then [pairs[i].1] else []
  {
    assert pairs[..i + 1][..i] == pairs[..i];
  }

  lemma NodesExtend(pairs: PairList, i: nat)
    requires i < |pairs|
    ensures Nodes(pairs[..i + 1]) == Nodes(pairs[..i]) + {pairs[i].0, pairs[i].1}
  {
  }

  ghost predicate Counted(pairs: PairList, i: nat, numParents: ParentCounts, children: ChildLists)
    requires i <= |pairs|
  {
    && numParents.Keys == Nodes(pairs[..i])
    && children.Keys <= numParents.Keys
    && (forall x :: InCount(pairs[..i], x, {}) == if x in numParents then numParents[x] else 0)
    && (forall p :: ChildrenOf(pairs[..i], p) == if p in children then children[p] else [])
  }

  lemma CountPair(pairs: PairList, i: nat, numParents: ParentCounts, children: ChildLists,
                  numParents': ParentCounts, children': ChildLists)
    requires i < |pairs| && Counted(pairs, i, numParents, children)
    requires numParents'.Keys == numParents.Keys + {pairs[i].0, pairs[i].1}
    requires forall x :: x in numParents' ==>
      numParents'[x] == (if x in numParents then numParents[x] else 0) + if x == pairs[i].1 then 1 else 0
    requires children' ==
      children[pairs[i].0 := (if pairs[i].0 in children then children[pairs[i].0] else []) + [pairs[i].1]]
    ensures Counted(pairs, i + 1, numParents', children')
  {
    hide InCount, ChildrenOf, Nodes;
    NodesExtend(pairs, i);
    forall x ensures InCount(pairs[..i + 1], x, {}) == if x in numParents' then numParents'[x] else 0 {
      CountsExtend(pairs, i, x);
    }
    forall p ensures ChildrenOf(pairs[..i + 1], p) == if p in children' then children'[p] else [] {
      CountsExtend(pairs, i, p);
    }
  }

  /** The opening loop shared by both sorts. */
  method CountPairs(pairs: PairList) returns (numParents: ParentCounts, children: ChildLists)
    ensures Represents(Nodes(pairs), pairs, {}, numParents, children)
  {
    numParents, children := map[], map[];
    for i := 0 to |pairs|
      invariant Counted(pairs, i, numParents, children)
    {
      ghost var numParents0, children0 := numParents, children;
      var (parent, child) := pairs[i];
      if parent !in numParents {
        numParents := numParents[parent := 0];
      }
      if child !in numParents {
        numParents := numParents[child := 0];
      }
      numParents := numParents[child := numParents[child] + 1];
      children := children[parent := (if parent in children then children[parent] else []) + [child]];
      CountPair(pairs, i, numParents0, children0, numParents, children);
    }
    assert pairs[..|pairs|] == pairs;
  }

  /** Keys with a zero count, in any dictionary order. */
  method ZeroKeys(numParents: ParentCounts) returns (zeros: seq<Item>)
    ensures Distinct(zeros)
    ensures forall x :: x in zeros <==> x in numParents && numParents[x] == 0
  {
    zeros := [];
    var left := numParents.Keys;
    while left != {}
      invariant left <= numParents.Keys && Distinct(zeros)
      invariant forall x :: x in zeros <==> x in numParents.Keys - left && numParents[x] == 0
      decreases left
    {
      var x :| x in left;
      left := left - {x};
      if numParents[x] == 0 {
        zeros := zeros + [x];
      }
    }
  }

  /** The counts once a parent left and `knocked` of its children's entries were counted down. */
  ghost predicate Knocked(pairs: PairList, gone: set<Item>, knocked: seq<Item>, numParents: ParentCounts) {
    forall x :: x in numParents ==> numParents[x] == InCount(pairs, x, gone) - multiset(knocked)[x]
  }

  /** Every prefix of the children of `p` accounts for part of the counts only. */
  lemma KnockBound(pairs: PairList, gone: set<Item>, p: Item, j: nat, x: Item)
    requires p !in gone && j <= |ChildrenOf(pairs, p)|
    ensures InCount(pairs, x, gone + {p}) <= InCount(pairs, x, gone) - multiset(ChildrenOf(pairs, p)[..j])[x]
  {
    var kids := ChildrenOf(pairs, p);
    CountRemove(pairs, x, gone, p);
    assert kids == kids[..j] + kids[j..];
  }

  lemma KnockOne(pairs: PairList, gone: set<Item>, kids: seq<Item>, j: nat,
                 numParents: ParentCounts, numParents': ParentCounts)
    requires j < |kids| && kids[j] in numParents && Knocked(pairs, gone, kids[..j], numParents)
    requires numParents' == numParents[kids[j] := numParents[kids[j]] - 1]
    ensures Knocked(pairs, gone, kids[..j + 1], numParents')
  {
    assert kids[..j + 1] == kids[..j] + [kids[j]];
  }

  lemma AllKnocked(pairs: PairList, gone: set<Item>, p: Item, numParents: ParentCounts)
    requires p !in gone && Knocked(pairs, gone, ChildrenOf(pairs, p), numParents)
    ensures forall x :: x in numParents ==> numParents[x] == InCount(pairs, x, gone + {p})
  {
    forall x | x in numParents { CountRemove(pairs, x, gone, p); }
  }

  // ---------------------------------------------------------------- topsort

  method TopSort(pairs: PairList) returns (r: SortResult)
    ensures r.CycleError? <==> Cyclic(EdgesOf(pairs))
    ensures Lists(r.answer, BoundedNodes(Nodes(pairs), EdgesOf(pairs)))
    ensures r.Sorted? ==> Lists(r.answer, Nodes(pairs))
    ensures ParentsFirst(EdgesOf(pairs), r.answer) && DepthOrdered(EdgesOf(pairs), r.answer)
    ensures ReleaseOrdered(pairs, r.answer) && RootsFirst(pairs, r.answer)
    ensures r.CycleError? ==> ReportsUnbounded(Nodes(pairs), pairs, r.numParents, r.children)
  {
    hide *;
    var numParents, children := CountPairs(pairs);
    ghost var nodes := Nodes(pairs);
    var answer := ZeroKeys(numParents);
    ghost var depths := seq(|answer|, _ => 0);
    KahnStart(pairs, answer, depths, numParents, children);
    ghost var roots: nat, releases: seq<(nat, nat)> := |answer|, seq(|answer|, _ => (0, 0));
    ReleasesStart(pairs, answer, releases, numParents, children);
    // `answer` grows while it is traversed.
    var i := 0;
    while i < |answer|
      invariant i <= |answer| && Kahn(nodes, pairs, answer, depths, i, numParents, children)
      invariant Releases(pairs, answer, releases, roots, i, 0)
      decreases |nodes| - i
    {
      var parent := answer[i];
      ghost var gone, kids0 := Elements(answer[..i]), ChildrenOf(pairs, parent);
      ghost var numParents0, children0 := numParents, children;
      KnockingStart(nodes, pairs, answer, depths, i, numParents, children);
      numParents := numParents - {parent};
      if parent in children {
        var kids := children[parent];
        for j := 0 to |kids|
          invariant i < |answer| && answer[i] == parent
          invariant Knocking(nodes, pairs, gone, kids, j, answer, depths, i, numParents)
          invariant Releases(pairs, answer, releases, roots, i, j)
        {
          var child := kids[j];
          KnockChild(nodes, pairs, gone, kids, j, answer, depths, i, numParents);
          ReleaseChild(nodes, pairs, gone, kids, j, answer, depths, i, numParents, releases, roots);
          numParents := numParents[child := numParents[child] - 1];
          if numParents[child] == 0 {
            answer := answer + [child];
            depths := depths + [depths[i] + 1];
            releases := releases + [(i, j)];
          }
        }
        children := children - {parent};
      }
      KnockingEnd(nodes, pairs, gone, kids0, answer, depths, i, numParents0, children0, numParents, children);
      ReleasesOn(pairs, answer, releases, roots, i, |kids0|);
      i := i + 1;
    }
    KahnEnd(nodes, pairs, answer, depths, numParents, children);
    ReleasesEnd(pairs, answer, releases, roots, i);
    if numParents != map[] {
      r := CycleError(answer, numParents, children);
    } else {
      r := Sorted(answer);
    }
  }

  /** Where and when each item from position `roots` on was released, all before the `j`-th child of
      the item at position `i`; those before are roots. */
  ghost predicate Releases(pairs: PairList, answer: seq<Item>, releases: seq<(nat, nat)>, roots: nat, i: nat, j: nat) {
    && |releases| == |answer| >= roots && Distinct(answer)
    && (forall k :: 0 <= k < roots ==> Parentless(pairs, answer[k]))
    && (forall k :: roots <= k < |answer| ==>
          ReleasedAt(pairs, answer, k, releases[k].0, releases[k].1) && Sooner(releases[k].0, releases[k].1, i, j))
    && (forall k, m :: roots <= k < m < |answer| ==>
          Sooner(releases[k].0, releases[k].1, releases[m].0, releases[m].1))
  }

  lemma ReleasesStart(pairs: PairList, answer: seq<Item>, releases: seq<(nat, nat)>,
                      numParents: ParentCounts, children: ChildLists)
    requires Represents(Nodes(pairs), pairs, {}, numParents, children)
    requires Distinct(answer) && forall x :: x in answer <==> x in numParents && numParents[x] == 0
    requires |releases| == |answer|
    ensures Releases(pairs, answer, releases, |answer|, 0, 0)
  {
    hide Nodes, ChildrenOf, InCount;
    forall k | 0 <= k < |answer| ensures Parentless(pairs, answer[k]) {
      assert answer[k] in answer;
      CountZero(pairs, answer[k], {});
    }
  }

  lemma ReleasesOn(pairs: PairList, answer: seq<Item>, releases: seq<(nat, nat)>, roots: nat, i: nat, j: nat)
    requires Releases(pairs, answer, releases, roots, i, j) || Releases(pairs, answer, releases, roots, i, 0)
    ensures Releases(pairs, answer, releases, roots, i + 1, 0)
  {
    hide ReleasedAt;
  }

  /** A moment of release does not change when the list grows. */
  lemma ReleaseStays(pairs: PairList, answer: seq<Item>, x: Item, j: nat, r: nat, c: nat)
    requires ReleasedAt(pairs, answer, j, r, c)
    ensures ReleasedAt(pairs, answer + [x], j, r, c)
  {
    assert (answer + [x])[..r + 1] == answer[..r + 1];
  }

  /** A child whose count drops to zero has no parent left and does not occur again. */
  lemma ReleaseNow(nodes: set<Item>, pairs: PairList, gone: set<Item>, kids: seq<Item>, j: nat,
                   answer: seq<Item>, depths: seq<nat>, i: nat, numParents: ParentCounts)
    requires Knocking(nodes, pairs, gone, kids, j, answer, depths, i, numParents) && j < |kids|
    requires kids[j] in numParents && numParents[kids[j]] == 1
    ensures ReleasedAt(pairs, answer + [kids[j]], |answer|, i, j)
  {
    hide HasDepth, ChildrenOf, EdgesOf, CoversEdges, Queued, DepthsKnown, InCount;
    var child, longer := kids[j], answer + [kids[j]];
    assert longer[..i + 1] == answer[..i + 1] && longer[i] == answer[i] && longer[|answer|] == child;
    assert answer[i] !in gone;
    CountRemove(pairs, child, gone, answer[i]);
    assert kids == kids[..j] + [child] + kids[j + 1..];
    assert multiset(kids)[child] == multiset(kids[..j])[child] + 1 + multiset(kids[j + 1..])[child];
    assert multiset(kids[j + 1..])[child] == 0 && InCount(pairs, child, gone + {answer[i]}) == 0;
    CountZero(pairs, child, gone + {answer[i]});
    assert answer[..i + 1] == answer[..i] + [answer[i]];
    forall y | (y, child) in pairs ensures y in answer[..i + 1] {
      assert (y, child).0 in gone + {answer[i]};
    }
  }

  lemma ReleaseChild(nodes: set<Item>, pairs: PairList, gone: set<Item>, kids: seq<Item>, j: nat,
                     answer: seq<Item>, depths: seq<nat>, i: nat, numParents: ParentCounts,
                     releases: seq<(nat, nat)>, roots: nat)
    requires Knocking(nodes, pairs, gone, kids, j, answer, depths, i, numParents) && j < |kids|
    requires Releases(pairs, answer, releases, roots, i, j) && kids[j] in numParents
    ensures if numParents[kids[j]] == 1
      then Releases(pairs, answer + [kids[j]], releases + [(i, j)], roots, i, j + 1)
      else Releases(pairs, answer, releases, roots, i, j + 1)
  {
    hide ReleasedAt, Knocking;
    if numParents[kids[j]] == 1 {
      NotListed(nodes, pairs, gone, kids, j, answer, depths, i, numParents);
      ReleaseNow(nodes, pairs, gone, kids, j, answer, depths, i, numParents);
      forall k | roots <= k < |answer| ensures ReleasedAt(pairs, answer + [kids[j]], k, releases[k].0, releases[k].1) {
        ReleaseStays(pairs, answer, kids[j], k, releases[k].0, releases[k].1);
      }
    }
  }

  lemma NotListed(nodes: set<Item>, pairs: PairList, gone: set<Item>, kids: seq<Item>, j: nat,
                  answer: seq<Item>, depths: seq<nat>, i: nat, numParents: ParentCounts)
    requires Knocking(nodes, pairs, gone, kids, j, answer, depths, i, numParents) && j < |kids|
    requires kids[j] in numParents && numParents[kids[j]] != 0
    ensures kids[j] !in answer
  {
    hide HasDepth, ChildrenOf, EdgesOf, CoversEdges, Knocked, DepthsKnown;
    assert answer == answer[..i + 1] + answer[i + 1..];
    assert kids[j] !in Elements(answer[..i + 1]);
  }

  lemma ReleaseUnique(pairs: PairList, answer: seq<Item>, releases: seq<(nat, nat)>, roots: nat, i: nat,
                      j: nat, r: nat, c: nat)
    requires Releases(pairs, answer, releases, roots, i, 0) && ReleasedAt(pairs, answer, j, r, c)
    ensures roots <= j < |answer| && (r, c) == releases[j]
  {
    hide ChildrenOf;
    var kids := ChildrenOf(pairs, answer[r]);
    ChildrenAreEdges(pairs, answer[r], answer[j]);
    assert (answer[r], answer[j]) in pairs && (answer[r], answer[j]).1 == answer[j];
    var r', c' := releases[j].0, releases[j].1;
    assert ReleasedAt(pairs, answer, j, r', c');
    ChildrenAreEdges(pairs, answer[r'], answer[j]);
    assert r <= r' by { assert answer[r] in answer[..r' + 1]; }
    assert r' <= r by { assert answer[r'] in answer[..r + 1]; }
    AfterLast(kids, answer[j], c);
    AfterLast(ChildrenOf(pairs, answer[r']), answer[j], c');
  }

  lemma AfterLast(kids: seq<Item>, x: Item, c: nat)
    requires c < |kids| && x !in kids[c + 1..]
    ensures forall d :: c < d < |kids| ==> kids[d] != x
  {
    forall d | c < d < |kids| ensures kids[d] in kids[c + 1..] {
      assert kids[c + 1..][d - c - 1] == kids[d];
    }
  }

  lemma ReleasesEnd(pairs: PairList, answer: seq<Item>, releases: seq<(nat, nat)>, roots: nat, i: nat)
    requires Releases(pairs, answer, releases, roots, i, 0)
    ensures ReleaseOrdered(pairs, answer) && RootsFirst(pairs, answer)
  {
    hide ReleasedAt, Parentless;
    forall k, m, r, c, r', c' | 0 <= k < m && ReleasedAt(pairs, answer, k, r, c) && ReleasedAt(pairs, answer, m, r', c')
      ensures Sooner(r, c, r', c')
    {
      ReleaseUnique(pairs, answer, releases, roots, i, k, r, c);
      ReleaseUnique(pairs, answer, releases, roots, i, m, r', c');
    }
    forall j | roots <= j < |answer| ensures Released(pairs, answer, j) && !Parentless(pairs, answer[j]) {
      assert ReleasedAt(pairs, answer, j, releases[j].0, releases[j].1);
      ReleasedHasParent(pairs, answer, j, releases[j].0, releases[j].1);
    }
  }

  lemma ReleasedHasParent(pairs: PairList, answer: seq<Item>, j: nat, r: nat, c: nat)
    requires ReleasedAt(pairs, answer, j, r, c)
    ensures !Parentless(pairs, answer[j])
  {
    ChildrenAreEdges(pairs, answer[r], answer[j]);
    assert (answer[r], answer[j]).1 == answer[j];
  }

  /** From index `i` on, `answer` lists the remaining keys with a zero count. */
  ghost predicate Queued(answer: seq<Item>, i: nat, numParents: ParentCounts)
    requires i <= |answer|
  {
    forall x :: x in answer[i..] <==> x in numParents && numParents[x] == 0
  }

  /** Items enter `answer` in order of depth, at most one level below the last one processed. */
  ghost predicate DepthsKnown(es: Edges, answer: seq<Item>, depths: seq<nat>, i: nat) {
    && i <= |answer| == |depths|
    && (forall j :: 0 <= j < |answer| ==> HasDepth(es, answer[j], depths[j]))
    && (forall j, k :: 0 <= j <= k < |answer| ==> depths[j] <= depths[k])
    && (forall j :: 0 <= j < |answer| ==> depths[j] <= if i > 0 then depths[i - 1] + 1 else 0)
  }

  ghost predicate Kahn(nodes: set<Item>, pairs: PairList, answer: seq<Item>, depths: seq<nat>, i: nat,
                       numParents: ParentCounts, children: ChildLists) {
    && i <= |answer| && Distinct(answer) && Elements(answer) <= nodes && CoversEdges(nodes, pairs)
    && Represents(nodes, pairs, Elements(answer[..i]), numParents, children)
    && Queued(answer, i, numParents) && DepthsKnown(EdgesOf(pairs), answer, depths, i)
  }

  /** The state inside the inner loop, `j` children of `answer[i]` having been knocked down. */
  ghost predicate Knocking(nodes: set<Item>, pairs: PairList, gone: set<Item>, kids: seq<Item>, j: nat,
                           answer: seq<Item>, depths: seq<nat>, i: nat, numParents: ParentCounts) {
    && i < |answer| == |depths| && Distinct(answer) && Elements(answer) <= nodes && CoversEdges(nodes, pairs)
    && kids == ChildrenOf(pairs, answer[i]) && j <= |kids|
    && numParents.Keys == nodes - Elements(answer[..i + 1])
    && gone == Elements(answer[..i]) && Knocked(pairs, gone, kids[..j], numParents)
    && Queued(answer, i + 1, numParents) && DepthsKnown(EdgesOf(pairs), answer, depths, i + 1)
  }

  lemma ParentlessIsRoot(pairs: PairList, x: Item)
    requires InCount(pairs, x, {}) == 0
    ensures HasDepth(EdgesOf(pairs), x, 0)
  {
    CountZero(pairs, x, {});
    assert forall y :: (y, x) in EdgesOf(pairs) ==> (y, x).0 in {};
  }

  lemma KahnStart(pairs: PairList, answer: seq<Item>, depths: seq<nat>,
                  numParents: ParentCounts, children: ChildLists)
    requires Represents(Nodes(pairs), pairs, {}, numParents, children)
    requires Distinct(answer) && forall x :: x in answer <==> x in numParents && numParents[x] == 0
    requires |depths| == |answer| && forall j :: 0 <= j < |depths| ==> depths[j] == 0
    ensures Kahn(Nodes(pairs), pairs, answer, depths, 0, numParents, children)
  {
    hide Nodes, EdgesOf, HasDepth, ChildrenOf, InCount;
    assert Elements(answer[..0]) == {} && answer[0..] == answer;
    forall j | 0 <= j < |answer| ensures HasDepth(EdgesOf(pairs), answer[j], 0) {
      assert answer[j] in answer;
      ParentlessIsRoot(pairs, answer[j]);
    }
  }

  lemma KnockingStart(nodes: set<Item>, pairs: PairList, answer: seq<Item>, depths: seq<nat>, i: nat,
                      numParents: ParentCounts, children: ChildLists)
    requires i < |answer| && Kahn(nodes, pairs, answer, depths, i, numParents, children)
    ensures var kids := ChildrenOf(pairs, answer[i]);
      && kids == (if answer[i] in children then children[answer[i]] else [])
      && Knocking(nodes, pairs, Elements(answer[..i]), kids, 0, answer, depths, i, numParents - {answer[i]})
    ensures Represents(nodes, pairs, Elements(answer[..i]), numParents, children)
    ensures i < |nodes|
  {
    hide HasDepth, EdgesOf, CoversEdges, Represents, Knocked;
    var kids := ChildrenOf(pairs, answer[i]);
    assert Elements(answer[..i + 1]) == Elements(answer[..i]) + {answer[i]} by {
      assert answer[..i + 1] == answer[..i] + [answer[i]];
    }
    assert answer[i] in Elements(answer) && answer[i] !in answer[..i];
    DropBegins(nodes, pairs, Elements(answer[..i]), answer[i], numParents, children);
    assert kids[..0] == [];
    assert answer[i..] == [answer[i]] + answer[i + 1..];
    assert answer[i] !in answer[i + 1..];
    DistinctFits(answer, nodes) by { assert forall x :: x in answer ==> x in Elements(answer); }
  }

  /** No child of the item being processed is among the processed ones: they are less deep. */
  lemma ChildAhead(nodes: set<Item>, pairs: PairList, answer: seq<Item>, depths: seq<nat>, i: nat, child: Item)
    requires CoversEdges(nodes, pairs) && i < |answer| && DepthsKnown(EdgesOf(pairs), answer, depths, i + 1)
    requires (answer[i], child) in pairs
    ensures child in nodes - Elements(answer[..i + 1]) && HasChain(EdgesOf(pairs), child, depths[i] + 1)
  {
    var es := EdgesOf(pairs);
    ChainExtends(es, answer[i], child, depths[i]);
    forall m | 0 <= m <= i ensures answer[m] != child {
      if answer[m] == child {
        ChainShrinks(es, child, depths[m] + 1, depths[i] + 1);
      }
    }
    EdgesCovered(nodes, pairs);
    assert (answer[i], child).1 in nodes;
  }

  /** A child whose last parent was just processed lies one level below it. */
  lemma ReleasedDepth(pairs: PairList, answer: seq<Item>, depths: seq<nat>, i: nat, child: Item)
    requires i < |answer| && DepthsKnown(EdgesOf(pairs), answer, depths, i + 1)
    requires HasChain(EdgesOf(pairs), child, depths[i] + 1)
    requires InCount(pairs, child, Elements(answer[..i + 1])) == 0
    ensures HasDepth(EdgesOf(pairs), child, depths[i] + 1)
  {
    var es, d := EdgesOf(pairs), depths[i];
    CountZero(pairs, child, Elements(answer[..i + 1]));
    forall y | (y, child) in es ensures !HasChain(es, y, d + 1) {
      assert (y, child).0 in Elements(answer[..i + 1]);
      var m :| 0 <= m <= i && answer[m] == y;
      assert HasDepth(es, answer[m], depths[m]);
      BoundGrows(es, y, depths[m] + 1, d + 1);
    }
  }

  lemma KnockChild(nodes: set<Item>, pairs: PairList, gone: set<Item>, kids: seq<Item>, j: nat,
                   answer: seq<Item>, depths: seq<nat>, i: nat, numParents: ParentCounts)
    requires Knocking(nodes, pairs, gone, kids, j, answer, depths, i, numParents) && j < |kids|
    ensures |depths| == |answer| > i && kids[j] in numParents
    ensures var numParents' := numParents[kids[j] := numParents[kids[j]] - 1];
      if numParents'[kids[j]] == 0
      then Knocking(nodes, pairs, gone, kids, j + 1, answer + [kids[j]], depths + [depths[i] + 1], i, numParents')
      else Knocking(nodes, pairs, gone, kids, j + 1, answer, depths, i, numParents')
  {
    hide HasDepth, HasChain, InCount, ChildrenOf, EdgesOf, CoversEdges, Knocked, DepthsKnown;
    var child := kids[j];
    ChildrenAreEdges(pairs, answer[i], child);
    ChildAhead(nodes, pairs, answer, depths, i, child);
    var numParents' := numParents[child := numParents[child] - 1];
    KnockOne(pairs, gone, kids, j, numParents, numParents');
    assert answer[i] !in gone;
    KnockedLeft(pairs, gone, answer[i], j, numParents');
    if numParents'[child] == 0 {
      assert gone + {answer[i]} == Elements(answer[..i + 1]) by {
        assert answer[..i + 1] == answer[..i] + [answer[i]];
      }
      ReleasedDepth(pairs, answer, depths, i, child);
      Appended(EdgesOf(pairs), nodes, answer, depths, i, child, numParents, numParents');
    }
  }

  /** What `j + 1` knocks leave of a count covers the parents that remain. */
  lemma KnockedLeft(pairs: PairList, gone: set<Item>, p: Item, j: nat, numParents: ParentCounts)
    requires p !in gone && j < |ChildrenOf(pairs, p)|
    requires Knocked(pairs, gone, ChildrenOf(pairs, p)[..j + 1], numParents)
    ensures forall x :: x in numParents ==> numParents[x] >= InCount(pairs, x, gone + {p})
  {
    forall x | x in numParents { KnockBound(pairs, gone, p, j + 1, x); }
  }

  lemma Appended(es: Edges, nodes: set<Item>, answer: seq<Item>, depths: seq<nat>, i: nat, child: Item,
                 numParents: ParentCounts, numParents': ParentCounts)
    requires i < |answer| == |depths| && Distinct(answer) && Elements(answer) <= nodes && child in nodes
    requires Queued(answer, i + 1, numParents) && DepthsKnown(es, answer, depths, i + 1)
    requires child in numParents && numParents[child] == 1 && numParents' == numParents[child := 0]
    requires child !in Elements(answer[..i + 1]) && HasDepth(es, child, depths[i] + 1)
    ensures Distinct(answer + [child]) && Elements(answer + [child]) <= nodes
    ensures (answer + [child])[..i] == answer[..i] && (answer + [child])[..i + 1] == answer[..i + 1]
    ensures Queued(answer + [child], i + 1, numParents')
    ensures DepthsKnown(es, answer + [child], depths + [depths[i] + 1], i + 1)
  {
    hide HasDepth;
    assert answer == answer[..i + 1] + answer[i + 1..];
    assert child !in answer;
    assert (answer + [child])[i + 1..] == answer[i + 1..] + [child];
  }

  lemma KnockingEnd(nodes: set<Item>, pairs: PairList, gone: set<Item>, kids: seq<Item>,
                    answer: seq<Item>, depths: seq<nat>, i: nat, numParents: ParentCounts, children: ChildLists,
                    numParents': ParentCounts, children': ChildLists)
    requires Knocking(nodes, pairs, gone, kids, |kids|, answer, depths, i, numParents')
    requires Represents(nodes, pairs, gone, numParents, children) && children' == children - {answer[i]}
    ensures Kahn(nodes, pairs, answer, depths, i + 1, numParents', children')
  {
    hide HasDepth, EdgesOf, CoversEdges, Represents, Knocked, Queued, DepthsKnown;
    assert kids[..|kids|] == kids;
    assert Elements(answer[..i + 1]) == gone + {answer[i]} by {
      assert answer[..i + 1] == answer[..i] + [answer[i]];
    }
    assert answer[i] in Elements(answer) && answer[i] !in answer[..i];
    DropEnds(nodes, pairs, gone, answer[i], numParents, children, numParents', children');
  }

  lemma KahnEnd(nodes: set<Item>, pairs: PairList, answer: seq<Item>, depths: seq<nat>,
                numParents: ParentCounts, children: ChildLists)
    requires Kahn(nodes, pairs, answer, depths, |answer|, numParents, children)
    ensures numParents != map[] <==> Cyclic(EdgesOf(pairs))
    ensures Lists(answer, BoundedNodes(nodes, EdgesOf(pairs)))
    ensures numParents == map[] ==> Lists(answer, nodes)
    ensures ParentsFirst(EdgesOf(pairs), answer) && DepthOrdered(EdgesOf(pairs), answer)
    ensures ReportsUnbounded(nodes, pairs, numParents, children)
  {
    hide HasDepth, HasChain, EdgesOf, CoversEdges, Represents, Queued, DepthsKnown;
    hide Bounded, Cyclic, ParentsFirst, DepthOrdered;
    var es := EdgesOf(pairs);
    assert answer[..|answer|] == answer;
    RepresentedKeys(nodes, pairs, Elements(answer), numParents, children);
    AnswerBounded(nodes, pairs, answer, depths, numParents, children);
    LeftoverIffCyclic(nodes, pairs, numParents.Keys);
    DepthsOrder(es, answer, depths);
    assert numParents == map[] <==> numParents.Keys == {};
    if numParents == map[] {
      forall x | x in nodes ensures x in answer {
        assert x !in nodes - Elements(answer);
      }
    }
  }

  lemma DepthsOrder(es: Edges, answer: seq<Item>, depths: seq<nat>)
    requires DepthsKnown(es, answer, depths, |answer|)
    ensures ParentsFirst(es, answer) && DepthOrdered(es, answer)
  {
    forall i, j, k: nat | 0 <= i <= j < |answer| && HasChain(es, answer[i], k) ensures HasChain(es, answer[j], k) {
      if depths[i] < k {
        ChainShrinks(es, answer[i], depths[i] + 1, k);
      } else {
        ChainShrinks(es, answer[j], k, depths[j]);
      }
    }
    forall i, j | 0 <= i < |answer| && 0 <= j < |answer| && (answer[i], answer[j]) in es ensures i < j {
      EdgeDeepens(es, answer[i], answer[j], depths[i], depths[j]);
    }
  }

  /** Once the list is exhausted, every leftover node has a leftover parent. */
  lemma LeftoverParented(nodes: set<Item>, pairs: PairList, gone: set<Item>,
                         numParents: ParentCounts, children: ChildLists, x: Item)
    requires CoversEdges(nodes, pairs) && Represents(nodes, pairs, gone, numParents, children)
    requires x in numParents && numParents[x] != 0
    ensures exists y :: y in nodes - gone && (y, x) in EdgesOf(pairs)
  {
    CountZero(pairs, x, gone);
    EdgesCovered(nodes, pairs);
    var e :| e in pairs && e.1 == x && e.0 !in gone;
    assert (e.0, x) in EdgesOf(pairs);
  }

  /** A leftover node need not have a child: here `b` hangs below the cycle of `a`. */
  lemma ChildlessLeftover(a: Item, b: Item)
    requires a != b
    ensures var pairs := [(a, a), (a, b)];
      b in Nodes(pairs) && !Bounded(EdgesOf(pairs), b) && ChildrenOf(pairs, b) == []
  {
    var pairs := [(a, a), (a, b)];
    var es := EdgesOf(pairs);
    assert (a, a) in pairs && (a, b) in pairs && (a, b).1 in Nodes(pairs);
    assert ClosedWalk(es, [a]);
    forall k: nat ensures HasChain(es, b, k) {
      if k > 0 {
        CycleUnbounded(es, [a], 0, k - 1);
        ChainExtends(es, a, b, k - 1);
      }
    }
    assert pairs[..1] == [(a, a)] && pairs[..1][..0] == [];
    assert ChildrenOf(pairs[..1][..0], b) == [] && ChildrenOf(pairs[..1], b) == [];
  }

  /** What the comment on the cycle error says of the leftover nodes. */
  ghost predicate LeftoversHaveChildren(pairs: PairList) {
    forall x :: x in Nodes(pairs) && !Bounded(EdgesOf(pairs), x) ==> ChildrenOf(pairs, x) != []
  }

  /** A walk from an item of a cycle to an item that is nobody's parent. */
  ghost predicate DeadEnd(pairs: PairList, c: seq<Item>, p: seq<Item>) {
    && ClosedWalk(EdgesOf(pairs), c)
    && p != [] && LeadsFrom(EdgesOf(pairs), c, p, p[|p| - 1])
    && forall e :: e in pairs ==> e.0 != p[|p| - 1]
  }

  /** The comment is right exactly when no walk that starts on a cycle ends in a childless node. */
  lemma CommentHoldsIff(pairs: PairList)
    ensures LeftoversHaveChildren(pairs) <==> forall c, p :: !DeadEnd(pairs, c, p)
  {
    hide ClosedWalk, Walk;
    var es, nodes := EdgesOf(pairs), Nodes(pairs);
    EdgesCovered(nodes, pairs);
    forall c, p | DeadEnd(pairs, c, p) ensures !LeftoversHaveChildren(pairs) {
      var x := p[|p| - 1];
      UnboundedIff(es, nodes, x);
      UnboundedParent(es, nodes, x);
      NoChildren(pairs, x);
    }
    forall x | x in nodes && !Bounded(es, x) && ChildrenOf(pairs, x) == [] ensures exists c, p :: DeadEnd(pairs, c, p) {
      UnboundedIff(es, nodes, x);
      NoChildren(pairs, x);
      var c, p :| ClosedWalk(es, c) && LeadsFrom(es, c, p, x);
      assert DeadEnd(pairs, c, p);
    }
  }

  lemma NoChildren(pairs: PairList, p: Item)
    ensures ChildrenOf(pairs, p) == [] <==> forall e :: e in pairs ==> e.0 != p
  {
    var kids := ChildrenOf(pairs, p);
    if kids != [] {
      ChildrenAreEdges(pairs, p, kids[0]);
    }
    forall e | e in pairs && e.0 == p ensures kids != [] {
      ChildrenAreEdges(pairs, p, e.1);
    }
  }

  lemma {:induction false} LeftoverChains(es: Edges, leftover: set<Item>, x: Item, k: nat)
    requires AllParented(es, leftover) && x in leftover
    ensures HasChain(es, x, k)
    decreases k
  {
    if k > 0 {
      assert ParentInside(es, leftover, x);
      var y :| y in leftover && (y, x) in es;
      LeftoverChains(es, leftover, y, k - 1);
    }
  }

  lemma AnswerBounded(nodes: set<Item>, pairs: PairList, answer: seq<Item>, depths: seq<nat>,
                      numParents: ParentCounts, children: ChildLists)
    requires CoversEdges(nodes, pairs) && Elements(answer) <= nodes
    requires Represents(nodes, pairs, Elements(answer), numParents, children)
    requires Queued(answer, |answer|, numParents) && DepthsKnown(EdgesOf(pairs), answer, depths, |answer|)
    ensures Elements(answer) == BoundedNodes(nodes, EdgesOf(pairs))
  {
    hide CoversEdges, Represents, InCount, ChildrenOf, EdgesOf, HasChain;
    var es, leftover := EdgesOf(pairs), nodes - Elements(answer);
    RepresentedKeys(nodes, pairs, Elements(answer), numParents, children);
    forall x | x in leftover ensures ParentInside(es, leftover, x) {
      assert x !in answer[|answer|..];
      LeftoverParented(nodes, pairs, Elements(answer), numParents, children, x);
    }
    forall x | x in leftover ensures !Bounded(es, x) {
      forall k: nat { LeftoverChains(es, leftover, x, k); }
    }
    forall x | x in Elements(answer) ensures Bounded(es, x) {
      var j :| 0 <= j < |answer| && answer[j] == x;
      assert HasDepth(es, answer[j], depths[j]);
    }
  }

  // ---------------------------------------------------------------- topsort_levels

  /** The generator's yielded lists, then how it ended. */
  method TopSortLevels(pairs: PairList) returns (levels: seq<seq<Item>>, end: LevelsEnd)
    ensures AreLevels(Nodes(pairs), EdgesOf(pairs), levels)
    ensures end.LevelsCycleError? <==> Cyclic(EdgesOf(pairs))
    ensures forall x :: x in BoundedNodes(Nodes(pairs), EdgesOf(pairs)) ==> Listed(levels, x)
    ensures end.Exhausted? ==> BoundedNodes(Nodes(pairs), EdgesOf(pairs)) == Nodes(pairs)
    ensures end.LevelsCycleError? ==> ReportsUnbounded(Nodes(pairs), pairs, end.numParents, end.children)
  {
    var numParents, children := CountPairs(pairs);
    levels, end := TopSortLevelsCore(Nodes(pairs), pairs, numParents, children);
  }

  ghost function Shallower(nodes: set<Item>, es: Edges, k: nat): set<Item> {
    set x | x in nodes && !HasChain(es, x, k)
  }

  method TopSortLevelsCore(ghost nodes: set<Item>, ghost pairs: PairList,
                           numParents0: ParentCounts, children0: ChildLists)
    returns (levels: seq<seq<Item>>, end: LevelsEnd)
    requires CoversEdges(nodes, pairs) && Represents(nodes, pairs, {}, numParents0, children0)
    ensures AreLevels(nodes, EdgesOf(pairs), levels)
    ensures end.LevelsCycleError? <==> Cyclic(EdgesOf(pairs))
    ensures forall x :: x in BoundedNodes(nodes, EdgesOf(pairs)) ==> Listed(levels, x)
    ensures end.Exhausted? ==> BoundedNodes(nodes, EdgesOf(pairs)) == nodes
    ensures end.LevelsCycleError? ==> ReportsUnbounded(nodes, pairs, end.numParents, end.children)
  {
    hide Represents, AreLevels, Shallower, HasDepth, HasChain, ReportsUnbounded, Cyclic, EdgesOf, CoversEdges;
    ghost var es := EdgesOf(pairs);
    var numParents, children := numParents0, children0;
    levels := [];
    LevelsStart(nodes, pairs);
    while true
      invariant AreLevels(nodes, es, levels)
      invariant Represents(nodes, pairs, Shallower(nodes, es, |levels|), numParents, children)
      decreases nodes - Shallower(nodes, es, |levels|)
    {
      var levelParents := ZeroKeys(numParents);
      LevelExact(nodes, pairs, |levels|, numParents, children, levelParents);
      if levelParents == [] {
        break;
      }
      LevelPeeled(nodes, pairs, |levels|, levelParents);
      numParents, children := PeelLevel(nodes, pairs, Shallower(nodes, es, |levels|), levelParents,
                                        numParents, children);
      LevelAdded(nodes, es, levels, levelParents);
      levels := levels + [levelParents];
      assert levelParents[0] in Elements(levelParents);
    }
    LevelsExhausted(nodes, pairs, levels, numParents, children);
    if numParents != map[] {
      end := LevelsCycleError(numParents, children);
    } else {
      end := Exhausted;
    }
  }

  lemma LevelsStart(nodes: set<Item>, pairs: PairList)
    ensures AreLevels(nodes, EdgesOf(pairs), [])
    ensures Shallower(nodes, EdgesOf(pairs), 0) == {}
  {
  }

  lemma LevelAdded(nodes: set<Item>, es: Edges, levels: seq<seq<Item>>, level: seq<Item>)
    requires AreLevels(nodes, es, levels) && level != [] && Distinct(level)
    requires forall x :: x in level <==> x in nodes && HasDepth(es, x, |levels|)
    ensures AreLevels(nodes, es, levels + [level])
  {
  }

  /** What happens between two yields. */
  method PeelLevel(ghost nodes: set<Item>, ghost pairs: PairList, ghost gone: set<Item>, level: seq<Item>,
                   numParents0: ParentCounts, children0: ChildLists)
    returns (numParents: ParentCounts, children: ChildLists)
    requires Represents(nodes, pairs, gone, numParents0, children0)
    requires Distinct(level) && Elements(level) <= nodes - gone
    requires forall parent, child :: parent in level && (parent, child) in pairs ==>
      child in nodes - gone - Elements(level)
    ensures Represents(nodes, pairs, gone + Elements(level), numParents, children)
  {
    numParents, children := numParents0, children0;
    hide Represents;
    ghost var goneNow := gone;
    for i := 0 to |level|
      invariant goneNow == gone + Elements(level[..i])
      invariant Represents(nodes, pairs, goneNow, numParents, children)
    {
      assert level[i] in Elements(level);
      numParents, children := DropParent(nodes, pairs, goneNow, level[i], numParents, children);
      goneNow := goneNow + {level[i]};
    }
    assert level[..|level|] == level;
  }

  /** The body of the loop over a level: forget one parent and knock down its children's counts. */
  method DropParent(ghost nodes: set<Item>, ghost pairs: PairList, ghost gone: set<Item>, parent: Item,
                    numParents0: ParentCounts, children0: ChildLists)
    returns (numParents: ParentCounts, children: ChildLists)
    requires Represents(nodes, pairs, gone, numParents0, children0) && parent in nodes - gone
    requires forall child :: (parent, child) in pairs ==> child in nodes - gone - {parent}
    ensures Represents(nodes, pairs, gone + {parent}, numParents, children)
  {
    hide Represents, Knocked;
    DropBegins(nodes, pairs, gone, parent, numParents0, children0);
    numParents, children := numParents0 - {parent}, children0;
    if parent in children {
      var kids := children[parent];
      assert kids[..0] == [];
      for j := 0 to |kids|
        invariant numParents.Keys == nodes - gone - {parent}
        invariant Knocked(pairs, gone, kids[..j], numParents)
      {
        ChildrenAreEdges(pairs, parent, kids[j]);
        ghost var before := numParents;
        numParents := numParents[kids[j] := numParents[kids[j]] - 1];
        KnockOne(pairs, gone, kids, j, before, numParents);
      }
      assert kids[..|kids|] == kids;
      children := children - {parent};
    }
    DropEnds(nodes, pairs, gone, parent, numParents0, children0, numParents, children);
  }

  lemma DropBegins(nodes: set<Item>, pairs: PairList, gone: set<Item>, parent: Item,
                   numParents: ParentCounts, children: ChildLists)
    requires Represents(nodes, pairs, gone, numParents, children) && parent in nodes - gone
    ensures numParents.Keys == nodes - gone
    ensures ChildrenOf(pairs, parent) == if parent in children then children[parent] else []
    ensures Knocked(pairs, gone, [], numParents - {parent})
  {
  }

  lemma DropEnds(nodes: set<Item>, pairs: PairList, gone: set<Item>, parent: Item,
                 numParents: ParentCounts, children: ChildLists, numParents': ParentCounts, children': ChildLists)
    requires Represents(nodes, pairs, gone, numParents, children) && parent in nodes - gone
    requires numParents'.Keys == nodes - gone - {parent} && children' == children - {parent}
    requires Knocked(pairs, gone, ChildrenOf(pairs, parent), numParents')
    ensures Represents(nodes, pairs, gone + {parent}, numParents', children')
  {
    AllKnocked(pairs, gone, parent, numParents');
  }

  /** After `k` levels the parentless survivors are exactly the nodes of depth `k`. */
  lemma LevelExact(nodes: set<Item>, pairs: PairList, k: nat,
                   numParents: ParentCounts, children: ChildLists, level: seq<Item>)
    requires CoversEdges(nodes, pairs)
    requires Represents(nodes, pairs, Shallower(nodes, EdgesOf(pairs), k), numParents, children)
    requires forall x :: x in level <==> x in numParents && numParents[x] == 0
    ensures forall x :: x in level <==> x in nodes && HasDepth(EdgesOf(pairs), x, k)
  {
    var es, gone := EdgesOf(pairs), Shallower(nodes, EdgesOf(pairs), k);
    forall x | x in nodes ensures x in level <==> HasDepth(es, x, k) {
      CountZero(pairs, x, gone);
      if x in level {
        forall y | (y, x) in es ensures !HasChain(es, y, k) {
          assert (y, x).0 in gone;
        }
      }
      if HasDepth(es, x, k) {
        forall e | e in pairs && e.1 == x ensures e.0 in gone {
          assert (e.0, x) in es;
        }
      }
    }
  }

  /** A child of a node of depth `k` has not been removed yet, nor is it in the same level. */
  lemma ChildRemains(nodes: set<Item>, pairs: PairList, k: nat, parent: Item, child: Item)
    requires CoversEdges(nodes, pairs) && (parent, child) in pairs
    requires HasDepth(EdgesOf(pairs), parent, k)
    ensures child in nodes - Shallower(nodes, EdgesOf(pairs), k) && !HasDepth(EdgesOf(pairs), child, k)
  {
    ChainExtends(EdgesOf(pairs), parent, child, k);
    ChainShrinks(EdgesOf(pairs), child, k, k + 1);
    EdgesCovered(nodes, pairs);
    assert (parent, child).1 in nodes;
  }

  lemma LevelPeeled(nodes: set<Item>, pairs: PairList, k: nat, level: seq<Item>)
    requires CoversEdges(nodes, pairs)
    requires forall x :: x in level <==> x in nodes && HasDepth(EdgesOf(pairs), x, k)
    ensures Elements(level) <= nodes - Shallower(nodes, EdgesOf(pairs), k)
    ensures forall parent, child :: parent in level && (parent, child) in pairs ==>
      child in nodes - Shallower(nodes, EdgesOf(pairs), k) - Elements(level)
    ensures Shallower(nodes, EdgesOf(pairs), k) + Elements(level) == Shallower(nodes, EdgesOf(pairs), k + 1)
  {
    forall parent, child | parent in level && (parent, child) in pairs
      ensures child in nodes - Shallower(nodes, EdgesOf(pairs), k) - Elements(level)
    {
      ChildRemains(nodes, pairs, k, parent, child);
    }
    forall x | x in Shallower(nodes, EdgesOf(pairs), k) ensures x in Shallower(nodes, EdgesOf(pairs), k + 1) {
      BoundGrows(EdgesOf(pairs), x, k, k + 1);
    }
  }

  /** With no parentless survivor left, the survivors are the nodes of unbounded depth. */
  lemma LevelsExhausted(nodes: set<Item>, pairs: PairList, levels: seq<seq<Item>>,
                        numParents: ParentCounts, children: ChildLists)
    requires CoversEdges(nodes, pairs) && AreLevels(nodes, EdgesOf(pairs), levels)
    requires Represents(nodes, pairs, Shallower(nodes, EdgesOf(pairs), |levels|), numParents, children)
    requires forall x :: x in [] <==> x in nodes && HasDepth(EdgesOf(pairs), x, |levels|)
    ensures numParents != map[] <==> Cyclic(EdgesOf(pairs))
    ensures ReportsUnbounded(nodes, pairs, numParents, children)
    ensures forall x :: x in BoundedNodes(nodes, EdgesOf(pairs)) ==> Listed(levels, x)
    ensures numParents == map[] ==> BoundedNodes(nodes, EdgesOf(pairs)) == nodes
  {
    hide HasDepth, HasChain, AreLevels, Cyclic, EdgesOf, Bounded, Represents, CoversEdges, Listed;
    var es, n := EdgesOf(pairs), |levels|;
    assert forall x :: x in nodes ==> !HasDepth(es, x, n);
    SurvivorsUnbounded(nodes, pairs, n);
    RepresentedKeys(nodes, pairs, Shallower(nodes, es, n), numParents, children);
    LeftoverIffCyclic(nodes, pairs, numParents.Keys);
    assert numParents == map[] <==> numParents.Keys == {};
    forall x | x in BoundedNodes(nodes, es) ensures Listed(levels, x) {
      assert x in Shallower(nodes, es, n) && !HasChain(es, x, n);
      ListedInLevel(nodes, es, levels, x);
    }
    if numParents == map[] {
      forall x | x in nodes ensures x in BoundedNodes(nodes, es) {
        assert x !in nodes - BoundedNodes(nodes, es);
      }
    }
  }

  lemma RepresentedKeys(nodes: set<Item>, pairs: PairList, gone: set<Item>,
                    numParents: ParentCounts, children: ChildLists)
    requires Represents(nodes, pairs, gone, numParents, children)
    ensures numParents.Keys == nodes - gone
  {
  }

  lemma LeftoverIffCyclic(nodes: set<Item>, pairs: PairList, leftover: set<Item>)
    requires CoversEdges(nodes, pairs)
    requires leftover == nodes - BoundedNodes(nodes, EdgesOf(pairs))
    ensures leftover != {} <==> Cyclic(EdgesOf(pairs))
  {
    EdgesCovered(nodes, pairs);
    AcyclicIffBounded(EdgesOf(pairs), nodes);
    if x :| x in nodes && !Bounded(EdgesOf(pairs), x) {
      assert x in leftover;
    }
  }

  lemma ListedInLevel(nodes: set<Item>, es: Edges, levels: seq<seq<Item>>, x: Item)
    requires AreLevels(nodes, es, levels) && x in nodes && !HasChain(es, x, |levels|)
    ensures Listed(levels, x)
  {
    DepthExists(es, x, |levels|);
    var d: nat :| d < |levels| && HasDepth(es, x, d);
    assert IsLevel(nodes, es, levels[d], d);
  }

  lemma SurvivorsUnbounded(nodes: set<Item>, pairs: PairList, n: nat)
    requires CoversEdges(nodes, pairs)
    requires forall x :: x in nodes ==> !HasDepth(EdgesOf(pairs), x, n)
    ensures Shallower(nodes, EdgesOf(pairs), n) == BoundedNodes(nodes, EdgesOf(pairs))
  {
    var es := EdgesOf(pairs);
    EdgesCovered(nodes, pairs);
    forall x | x in nodes && HasChain(es, x, n) ensures !Bounded(es, x) {
      forall k: nat ensures HasChain(es, x, k) {
        if k <= n { ChainShrinks(es, x, k, n); } else { NoDepthClimbs(nodes, es, n, x, k); }
      }
    }
  }

  lemma {:induction false} NoDepthClimbs(nodes: set<Item>, es: Edges, n: nat, x: Item, k: nat)
    requires forall e :: e in es ==> e.0 in nodes && e.1 in nodes
    requires forall x :: x in nodes ==> !HasDepth(es, x, n)
    requires x in nodes && HasChain(es, x, n) && n <= k
    ensures HasChain(es, x, k)
    decreases k
  {
    if n < k {
      assert HasChain(es, x, n + 1);
      var y :| (y, x) in es && HasChain(es, y, n);
      assert (y, x).0 in nodes;
      NoDepthClimbs(nodes, es, n, y, k - 1);
    }
  }

  // ---------------------------------------------------------------- both sorts agree

  /** How many items the first `k` levels hold. */
  ghost function Start(levels: seq<seq<Item>>, k: nat): nat
    requires k <= |levels|
  {
    if k == 0 then 0 else Start(levels, k - 1) + |levels[k - 1]|
  }

  /** The items of level `k` are the next `|levels[k]|` items of the sorted list, in some order.
      With cycles, this holds of what both sorts found before they failed. */
  lemma SortsAgree(pairs: PairList, answer: seq<Item>, levels: seq<seq<Item>>, k: nat)
    requires Lists(answer, BoundedNodes(Nodes(pairs), EdgesOf(pairs))) && DepthOrdered(EdgesOf(pairs), answer)
    requires AreLevels(Nodes(pairs), EdgesOf(pairs), levels)
    requires forall x :: x in BoundedNodes(Nodes(pairs), EdgesOf(pairs)) ==> Listed(levels, x)
    ensures Start(levels, |levels|) == |answer|
    ensures k < |levels| ==>
      Start(levels, k + 1) <= |answer|
      && multiset(answer[Start(levels, k)..Start(levels, k + 1)]) == multiset(levels[k])
  {
    hide AreLevels, EdgesOf, Nodes, Listed, HasChain, Bounded;
    var nodes, es := Nodes(pairs), EdgesOf(pairs);
    PrefixOfDepth(nodes, es, answer, levels, |levels|);
    AllShallow(nodes, es, levels);
    assert Elements(answer) == BoundedNodes(nodes, es);
    DistinctSize(answer);
    DistinctSize(answer[..Start(levels, |levels|)]);
    if k < |levels| {
      PrefixOfDepth(nodes, es, answer, levels, k);
      PrefixOfDepth(nodes, es, answer, levels, k + 1);
      LevelIsDifference(nodes, es, levels, k);
      SliceElements(answer, Start(levels, k), Start(levels, k + 1));
      SameElements(answer[Start(levels, k)..Start(levels, k + 1)], levels[k]);
    }
  }

  lemma PrefixOfDepth(nodes: set<Item>, es: Edges, answer: seq<Item>, levels: seq<seq<Item>>, k: nat)
    requires Lists(answer, BoundedNodes(nodes, es)) && DepthOrdered(es, answer)
    requires AreLevels(nodes, es, levels) && k <= |levels|
    ensures Start(levels, k) <= |answer|
    ensures Elements(answer[..Start(levels, k)]) == Shallower(nodes, es, k)
  {
    var low := Shallower(nodes, es, k);
    ShallowSize(nodes, es, levels, k);
    hide HasChain, AreLevels;
    forall x | x in low ensures x in Elements(answer) {
      assert Bounded(es, x);
    }
    forall i, j | 0 <= i <= j < |answer| && answer[j] in low ensures answer[i] in low {
      assert answer[i] in answer;
    }
    PrefixSet(answer, low);
  }

  lemma LevelIsDifference(nodes: set<Item>, es: Edges, levels: seq<seq<Item>>, k: nat)
    requires AreLevels(nodes, es, levels) && k < |levels|
    ensures Distinct(levels[k]) && Elements(levels[k]) == Shallower(nodes, es, k + 1) - Shallower(nodes, es, k)
    ensures Shallower(nodes, es, k) <= Shallower(nodes, es, k + 1)
  {
    assert IsLevel(nodes, es, levels[k], k);
    forall x | x in Shallower(nodes, es, k) ensures x in Shallower(nodes, es, k + 1) {
      BoundGrows(es, x, k, k + 1);
    }
  }

  lemma {:induction false} ShallowSize(nodes: set<Item>, es: Edges, levels: seq<seq<Item>>, k: nat)
    requires AreLevels(nodes, es, levels) && k <= |levels|
    ensures |Shallower(nodes, es, k)| == Start(levels, k)
  {
    if k == 0 {
      assert Shallower(nodes, es, 0) == {};
    } else {
      ShallowSize(nodes, es, levels, k - 1);
      LevelIsDifference(nodes, es, levels, k - 1);
      DistinctSize(levels[k - 1]);
      assert Shallower(nodes, es, k) == Shallower(nodes, es, k - 1) + Elements(levels[k - 1]);
    }
  }

  lemma AllShallow(nodes: set<Item>, es: Edges, levels: seq<seq<Item>>)
    requires AreLevels(nodes, es, levels)
    requires forall x :: x in BoundedNodes(nodes, es) ==> Listed(levels, x)
    ensures Shallower(nodes, es, |levels|) == BoundedNodes(nodes, es)
  {
    forall x | x in BoundedNodes(nodes, es) ensures !HasChain(es, x, |levels|) {
      var k :| 0 <= k < |levels| && x in levels[k];
      assert IsLevel(nodes, es, levels[k], k);
      BoundGrows(es, x, k + 1, |levels|);
    }
  }
}
