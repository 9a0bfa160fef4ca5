/** `find_cycles`: enumerate the simple cycles of a graph with a stack of paths. */
module FindCycles {
  import opened Digraphs
  import opened Rotations
  import opened Sequences

  /** parent -> collection of children */
  type ChildTable = map<Item, seq<Item>>

  function EdgesOf(g: ChildTable): Edges {
    set parent, child | parent in g && child in g[parent] :: (parent, child)
  }

  ghost function NodesOf(g: ChildTable): set<Item> {
    g.Keys + set e | e in EdgesOf(g) :: e.1
  }

  ghost predicate SimplePath(g: ChildTable, p: seq<Item>)
    ensures SimplePath(g, p) ==> p != []
  {
    p != [] && Walk(EdgesOf(g), p) && Distinct(p) && p[0] in NodesOf(g)
  }

  function IndexOf<T(==)>(s: seq<T>, x: T): (i: nat)
    requires x in s
    ensures i < |s| && s[i] == x && x !in s[..i]
  {
    if s[0] == x then 0
    else
      var i := IndexOf(s[1..], x);
      assert s[..i + 1] == [s[0]] + s[1..][..i];
      i + 1
  }

  // ---------------------------------------------------------------- specification

  ghost predicate Recorded(cycles: seq<seq<Item>>, c: seq<Item>) {
    exists i :: 0 <= i < |cycles| && IsRotation(cycles[i], c)
  }

  ghost predicate AllSimpleCycles(g: ChildTable, cycles: seq<seq<Item>>) {
    forall i :: 0 <= i < |cycles| ==> SimpleCycle(EdgesOf(g), cycles[i])
  }

  ghost predicate NoTwoRotated(cycles: seq<seq<Item>>) {
    forall i, j :: 0 <= i < |cycles| && 0 <= j < |cycles| && i != j ==> !IsRotation(cycles[i], cycles[j])
  }

  // ---------------------------------------------------------------- exploration

  function Last<T>(p: seq<T>): T
    requires p != []
  {
    p[|p| - 1]
  }

  /** Every edge from the end of `p` back into `p` closes a recorded cycle. */
  ghost predicate Explored(g: ChildTable, cycles: seq<seq<Item>>, p: seq<Item>)
    requires p != []
  {
    forall child :: (Last(p), child) in EdgesOf(g) && child in p ==> Recorded(cycles, p[IndexOf(p, child)..])
  }

  ghost predicate Drained(g: ChildTable, cycles: seq<seq<Item>>, root: Item) {
    forall q :: SimplePath(g, q) && q[0] == root ==> Explored(g, cycles, q)
  }

  ghost predicate Stacked(paths: seq<seq<Item>>, q: seq<Item>) {
    exists i :: 0 <= i < |paths| && paths[i] <= q
  }

  /** Each simple path from the root is explored or extends a path on the stack. */
  ghost predicate Covered(g: ChildTable, cycles: seq<seq<Item>>, paths: seq<seq<Item>>, root: Item) {
    forall q :: SimplePath(g, q) && q[0] == root ==> Explored(g, cycles, q) || Stacked(paths, q)
  }

  ghost predicate PathsFrom(g: ChildTable, paths: seq<seq<Item>>, root: Item) {
    forall i :: 0 <= i < |paths| ==> SimplePath(g, paths[i]) && paths[i][0] == root
  }

  /** Some simple path leads from one of the roots to `x`. */
  ghost predicate Reached(g: ChildTable, roots: set<Item>, x: Item) {
    exists q :: SimplePath(g, q) && q[0] in roots && Last(q) == x
  }

  /** `q` extends `path`, through one of the children not handled yet if it is longer. */
  ghost predicate Pending(path: seq<Item>, kids: seq<Item>, j: nat, q: seq<Item>)
    requires j <= |kids|
  {
    path <= q && (|q| > |path| ==> q[|path|] in kids[j..])
  }

  ghost predicate CoveredWhile(g: ChildTable, cycles: seq<seq<Item>>, paths: seq<seq<Item>>, root: Item,
                               path: seq<Item>, kids: seq<Item>, j: nat)
    requires j <= |kids|
  {
    forall q :: SimplePath(g, q) && q[0] == root ==>
      Explored(g, cycles, q) || Stacked(paths, q) || Pending(path, kids, j, q)
  }

  ghost predicate BackEdgesRecorded(cycles: seq<seq<Item>>, path: seq<Item>, kids: seq<Item>, j: nat)
    requires j <= |kids|
  {
    forall m :: 0 <= m < j && kids[m] in path ==> Recorded(cycles, path[IndexOf(path, kids[m])..])
  }

  // ---------------------------------------------------------------- weights

  /** More than the weight of `degree` one-step extensions. */
  ghost function Weight(degree: nat, room: nat): nat {
    if room == 0 then 1 else 1 + degree * Weight(degree, room - 1)
  }

  ghost function StackWeight(degree: nat, size: nat, paths: seq<seq<Item>>): nat {
    if paths == [] then 0
    else
      var last := Last(paths);
      StackWeight(degree, size, paths[..|paths| - 1])
      + if |last| <= size then Weight(degree, size - |last|) else 0
  }

  /** The weight of `j` one-step extensions of `path`. */
  ghost function Extensions(degree: nat, size: nat, path: seq<Item>, j: nat): nat {
    if |path| < size then j * Weight(degree, size - |path| - 1) else 0
  }

  lemma {:induction false} DegreeBoundOn(g: ChildTable, keys: set<Item>) returns (degree: nat)
    requires keys <= g.Keys
    ensures forall x :: x in keys ==> |g[x]| <= degree
  {
    if keys == {} {
      degree := 0;
    } else {
      var x :| x in keys;
      var d := DegreeBoundOn(g, keys - {x});
      degree := if d < |g[x]| then |g[x]| else d;
      assert forall y :: y in keys ==> y == x || y in keys - {x};
    }
  }

  ghost predicate Degree(g: ChildTable, degree: nat) {
    forall x :: x in g ==> |g[x]| <= degree
  }

  lemma DegreeBound(g: ChildTable) returns (degree: nat)
    ensures Degree(g, degree)
  {
    degree := DegreeBoundOn(g, g.Keys);
  }

  lemma SimplePathInside(g: ChildTable, p: seq<Item>)
    requires SimplePath(g, p)
    ensures |p| <= |NodesOf(g)|
  {
    forall x | x in p ensures x in NodesOf(g) {
      var i :| 0 <= i < |p| && p[i] == x;
      if i > 0 {
        assert (p[i - 1], p[i - 1 + 1]) in EdgesOf(g);
        assert (p[i - 1], x).1 == x;
      }
    }
    DistinctFits(p, NodesOf(g));
  }

  lemma PopWeight(g: ChildTable, degree: nat, paths: seq<seq<Item>>, path: seq<Item>)
    requires Degree(g, degree) && paths != [] && path == Last(paths) && SimplePath(g, path)
    ensures StackWeight(degree, |NodesOf(g)|, paths[..|paths| - 1]) < StackWeight(degree, |NodesOf(g)|, paths)
    ensures Last(path) in g ==>
      StackWeight(degree, |NodesOf(g)|, paths[..|paths| - 1]) + Extensions(degree, |NodesOf(g)|, path, |g[Last(path)]|)
      < StackWeight(degree, |NodesOf(g)|, paths)
  {
    hide SimplePath, Weight, Extensions, NodesOf, Degree;
    SimplePathInside(g, path);
    WeightExceedsExtensions(g, degree, path);
  }

  lemma WeightExceedsExtensions(g: ChildTable, degree: nat, path: seq<Item>)
    requires Degree(g, degree) && path != [] && |path| <= |NodesOf(g)|
    ensures Last(path) in g ==>
      Extensions(degree, |NodesOf(g)|, path, |g[Last(path)]|) < Weight(degree, |NodesOf(g)| - |path|)
    ensures Weight(degree, |NodesOf(g)| - |path|) > 0
  {
    hide NodesOf;
    if Last(path) in g && |path| < |NodesOf(g)| {
      MulMonotone(|g[Last(path)]|, degree, Weight(degree, |NodesOf(g)| - |path| - 1));
    }
  }

  lemma MulMonotone(a: nat, b: nat, w: nat)
    requires a <= b
    ensures a * w <= b * w
  {
  }

  lemma ExtensionsGrow(degree: nat, size: nat, path: seq<Item>, j: nat)
    ensures Extensions(degree, size, path, j) <= Extensions(degree, size, path, j + 1)
  {
  }

  lemma PushWeight(g: ChildTable, degree: nat, paths: seq<seq<Item>>, path: seq<Item>, child: Item, j: nat)
    requires SimplePath(g, path + [child])
    ensures StackWeight(degree, |NodesOf(g)|, paths + [path + [child]]) + Extensions(degree, |NodesOf(g)|, path, j)
      == StackWeight(degree, |NodesOf(g)|, paths) + Extensions(degree, |NodesOf(g)|, path, j + 1)
  {
  }

  // ---------------------------------------------------------------- search states

  ghost predicate Found(g: ChildTable, cycles: seq<seq<Item>>) {
    AllSimpleCycles(g, cycles) && NoTwoRotated(cycles)
  }

  /** Between two roots: `roots` were searched, the other keys in `seen` had been visited. */
  ghost predicate Searched(g: ChildTable, cycles: seq<seq<Item>>, roots: set<Item>, visited: set<Item>,
                           seen: set<Item>) {
    && Found(g, cycles)
    && (forall r :: r in roots ==> Drained(g, cycles, r))
    && (forall x :: x in visited ==> Reached(g, roots, x))
    && seen <= roots + visited
  }

  /** While the search from `root` goes on, with `paths` on the stack. */
  ghost predicate Searching(g: ChildTable, cycles: seq<seq<Item>>, roots: set<Item>, visited: set<Item>,
                            seen: set<Item>, root: Item, paths: seq<seq<Item>>) {
    && Found(g, cycles)
    && (forall r :: r in roots ==> Drained(g, cycles, r))
    && (forall x :: x in visited ==> Reached(g, roots + {root}, x))
    && seen <= roots + visited + {root}
    && PathsFrom(g, paths, root) && Covered(g, cycles, paths, root)
  }

  /** While the children of the end of `path`, just popped, are handled. */
  ghost predicate Extending(g: ChildTable, cycles: seq<seq<Item>>, roots: set<Item>, visited: set<Item>,
                            seen: set<Item>, root: Item, paths: seq<seq<Item>>,
                            path: seq<Item>, kids: seq<Item>, j: nat) {
    && Found(g, cycles)
    && (forall r :: r in roots ==> Drained(g, cycles, r))
    && (forall x :: x in visited ==> Reached(g, roots + {root}, x))
    && seen <= roots + visited + {root}
    && PathsFrom(g, paths, root) && SimplePath(g, path) && path[0] == root
    && Last(path) in g && kids == g[Last(path)] && j <= |kids|
    && BackEdgesRecorded(cycles, path, kids, j) && CoveredWhile(g, cycles, paths, root, path, kids, j)
  }

  lemma SearchStart(g: ChildTable)
    ensures Searched(g, [], {}, {}, {})
  {
  }

  lemma RootStart(g: ChildTable, cycles: seq<seq<Item>>, roots: set<Item>, visited: set<Item>, seen: set<Item>,
                  root: Item)
    requires Searched(g, cycles, roots, visited, seen) && root in g
    ensures root in visited ==> Searched(g, cycles, roots, visited, seen + {root})
    ensures Searching(g, cycles, roots, visited, seen + {root}, root, [[root]])
  {
    hide Found, Drained, Explored;
    var paths := [[root]];
    assert SimplePath(g, [root]);
    forall q | SimplePath(g, q) && q[0] == root ensures Stacked(paths, q) {
      assert paths[0] <= q;
    }
    forall x | x in visited ensures Reached(g, roots + {root}, x) {
      var q :| SimplePath(g, q) && q[0] in roots && Last(q) == x;
    }
  }

  lemma PopPath(g: ChildTable, cycles: seq<seq<Item>>, roots: set<Item>, visited: set<Item>, seen: set<Item>,
                root: Item, paths: seq<seq<Item>>, path: seq<Item>)
    requires Searching(g, cycles, roots, visited, seen, root, paths) && paths != [] && path == Last(paths)
    ensures SimplePath(g, path)
    ensures Last(path) !in g ==> Searching(g, cycles, roots, visited, seen, root, paths[..|paths| - 1])
    ensures Last(path) in g ==>
      Extending(g, cycles, roots, visited, seen, root, paths[..|paths| - 1], path, g[Last(path)], 0)
  {
    hide Found, Drained, Reached, SimplePath, EdgesOf;
    assert paths[|paths| - 1] == path;
    assert SimplePath(g, path);
    var rest := paths[..|paths| - 1];
    forall q | SimplePath(g, q) && q[0] == root && !Explored(g, cycles, q)
      ensures Stacked(rest, q) || (Last(path) in g && Pending(path, g[Last(path)], 0, q))
    {
      assert Stacked(paths, q);
      var i :| 0 <= i < |paths| && paths[i] <= q;
      if i < |rest| {
        assert rest[i] <= q;
      } else {
        Continuation(g, cycles, path, q);
      }
    }
  }

  /** A path going on from `path` goes on along one of its children. */
  lemma Continuation(g: ChildTable, cycles: seq<seq<Item>>, path: seq<Item>, q: seq<Item>)
    requires SimplePath(g, path) && SimplePath(g, q) && path <= q && !Explored(g, cycles, q)
    ensures Last(path) in g && (|q| > |path| ==> q[|path|] in g[Last(path)])
  {
    if |q| == |path| {
      var child :| (Last(q), child) in EdgesOf(g) && child in q;
    } else {
      assert (q[|path| - 1], q[|path| - 1 + 1]) in EdgesOf(g);
    }
  }

  // ---- a child on the path closes a cycle

  lemma SuffixCycle(g: ChildTable, path: seq<Item>, child: Item)
    requires SimplePath(g, path) && (Last(path), child) in EdgesOf(g) && child in path
    ensures SimpleCycle(EdgesOf(g), path[IndexOf(path, child)..])
  {
  }

  lemma FoundOne(g: ChildTable, cycles: seq<seq<Item>>, c: seq<Item>)
    requires Found(g, cycles) && SimpleCycle(EdgesOf(g), c) && !Recorded(cycles, c)
    ensures Found(g, cycles + [c]) && Recorded(cycles + [c], c)
  {
    hide SimpleCycle, EdgesOf, IsRotation;
    var cycles' := cycles + [c];
    forall i, j | 0 <= i < |cycles'| && 0 <= j < |cycles'| && i != j ensures !IsRotation(cycles'[i], cycles'[j]) {
      if i == |cycles| && IsRotation(c, cycles[j]) {
        RotationSymmetric(c, cycles[j]);
      }
    }
    CycleNonempty(EdgesOf(g), c);
    RotationReflexive(c);
    assert IsRotation(cycles'[|cycles|], c);
  }

  lemma CycleNonempty(es: Edges, c: seq<Item>)
    requires SimpleCycle(es, c)
    ensures c != []
  {
  }

  lemma RecordedGrows(cycles: seq<seq<Item>>, c: seq<Item>, d: seq<Item>)
    requires Recorded(cycles, d)
    ensures Recorded(cycles + [c], d)
  {
    var i :| 0 <= i < |cycles| && IsRotation(cycles[i], d);
    assert (cycles + [c])[i] == cycles[i];
  }

  lemma ExploredGrows(g: ChildTable, cycles: seq<seq<Item>>, c: seq<Item>, q: seq<Item>)
    requires q != [] && Explored(g, cycles, q)
    ensures Explored(g, cycles + [c], q)
  {
    hide Recorded, EdgesOf;
    forall child | (Last(q), child) in EdgesOf(g) && child in q
      ensures Recorded(cycles + [c], q[IndexOf(q, child)..])
    {
      RecordedGrows(cycles, c, q[IndexOf(q, child)..]);
    }
  }

  lemma ExtendingGrows(g: ChildTable, cycles: seq<seq<Item>>, roots: set<Item>, visited: set<Item>, seen: set<Item>,
                       root: Item, paths: seq<seq<Item>>, path: seq<Item>, kids: seq<Item>, j: nat, c: seq<Item>)
    requires Extending(g, cycles, roots, visited, seen, root, paths, path, kids, j) && Found(g, cycles + [c])
    ensures Extending(g, cycles + [c], roots, visited, seen, root, paths, path, kids, j)
  {
    hide Found, Recorded, Explored, SimplePath, EdgesOf, Reached, Stacked, Pending;
    var cycles' := cycles + [c];
    forall q | SimplePath(g, q) && Explored(g, cycles, q) ensures Explored(g, cycles', q) {
      ExploredGrows(g, cycles, c, q);
    }
    forall m | 0 <= m < j && kids[m] in path ensures Recorded(cycles', path[IndexOf(path, kids[m])..]) {
      RecordedGrows(cycles, c, path[IndexOf(path, kids[m])..]);
    }
  }

  lemma BackEdge(g: ChildTable, cycles: seq<seq<Item>>, roots: set<Item>, visited: set<Item>, seen: set<Item>,
                 root: Item, paths: seq<seq<Item>>, path: seq<Item>, kids: seq<Item>, j: nat)
    requires Extending(g, cycles, roots, visited, seen, root, paths, path, kids, j) && j < |kids| && kids[j] in path
    ensures var cycle := path[IndexOf(path, kids[j])..];
      var cycles' := if Recorded(cycles, cycle) then cycles else cycles + [cycle];
      Extending(g, cycles', roots, visited, seen, root, paths, path, kids, j + 1)
  {
    hide Found, Recorded, Explored, EdgesOf, Reached, Stacked, Covered, Drained;
    var cycle := path[IndexOf(path, kids[j])..];
    KidEdge(g, path, kids, j);
    SuffixCycle(g, path, kids[j]);
    var cycles' := if Recorded(cycles, cycle) then cycles else cycles + [cycle];
    if !Recorded(cycles, cycle) {
      FoundOne(g, cycles, cycle);
      ExtendingGrows(g, cycles, roots, visited, seen, root, paths, path, kids, j, cycle);
    }
    assert Extending(g, cycles', roots, visited, seen, root, paths, path, kids, j);
    forall q | SimplePath(g, q) && Pending(path, kids, j, q) ensures Pending(path, kids, j + 1, q) {
      if |q| > |path| {
        NoReturn(path, q);
        assert kids[j..] == [kids[j]] + kids[j + 1..];
      }
    }
  }

  lemma KidEdge(g: ChildTable, path: seq<Item>, kids: seq<Item>, j: nat)
    requires path != [] && Last(path) in g && kids == g[Last(path)] && j < |kids|
    ensures (Last(path), kids[j]) in EdgesOf(g)
  {
  }

  lemma NoReturn(path: seq<Item>, q: seq<Item>)
    requires Distinct(q) && path <= q && |path| < |q|
    ensures q[|path|] !in path
  {
  }

  // ---- a child off the path makes a longer path

  lemma LongerPath(g: ChildTable, path: seq<Item>, child: Item)
    requires SimplePath(g, path) && (Last(path), child) in EdgesOf(g) && child !in path
    ensures SimplePath(g, path + [child])
  {
  }

  lemma PushPath(g: ChildTable, cycles: seq<seq<Item>>, roots: set<Item>, visited: set<Item>, seen: set<Item>,
                 root: Item, paths: seq<seq<Item>>, path: seq<Item>, kids: seq<Item>, j: nat)
    requires Extending(g, cycles, roots, visited, seen, root, paths, path, kids, j) && j < |kids| && kids[j] !in path
    ensures SimplePath(g, path + [kids[j]])
    ensures Extending(g, cycles, roots, visited + {kids[j]}, seen, root, paths + [path + [kids[j]]], path, kids, j + 1)
  {
    hide Found, Recorded, Explored, EdgesOf, SimplePath, Drained;
    var longer := path + [kids[j]];
    KidEdge(g, path, kids, j);
    LongerPath(g, path, kids[j]);
    assert longer[0] == root && Last(longer) == kids[j];
    assert Reached(g, roots + {root}, kids[j]);
    var paths' := paths + [longer];
    forall q | SimplePath(g, q) && q[0] == root && !Explored(g, cycles, q)
      ensures Stacked(paths', q) || Pending(path, kids, j + 1, q)
    {
      if Stacked(paths, q) {
        var i :| 0 <= i < |paths| && paths[i] <= q;
        assert paths'[i] <= q;
      } else {
        assert kids[j..] == [kids[j]] + kids[j + 1..];
        if |q| > |path| && q[|path|] == kids[j] {
          assert paths'[|paths|] <= q;
        }
      }
    }
  }

  lemma ChildrenDone(g: ChildTable, cycles: seq<seq<Item>>, roots: set<Item>, visited: set<Item>, seen: set<Item>,
                     root: Item, paths: seq<seq<Item>>, path: seq<Item>, kids: seq<Item>)
    requires Extending(g, cycles, roots, visited, seen, root, paths, path, kids, |kids|)
    ensures Searching(g, cycles, roots, visited, seen, root, paths)
  {
    hide Found, Recorded, SimplePath, Drained, Reached, Stacked;
    forall child | (Last(path), child) in EdgesOf(g) && child in path
      ensures Recorded(cycles, path[IndexOf(path, child)..])
    {
      var m :| 0 <= m < |kids| && kids[m] == child;
    }
    assert Explored(g, cycles, path);
    forall q | SimplePath(g, q) && q[0] == root && !Explored(g, cycles, q) ensures Stacked(paths, q) {
      assert Pending(path, kids, |kids|, q) ==> q == path;
    }
  }

  lemma RootDone(g: ChildTable, cycles: seq<seq<Item>>, roots: set<Item>, visited: set<Item>, seen: set<Item>,
                 root: Item)
    requires Searching(g, cycles, roots, visited, seen, root, [])
    ensures Searched(g, cycles, roots + {root}, visited, seen)
  {
  }

  // ---------------------------------------------------------------- completeness

  /** A path to `c`'s first item, cut where it meets `c` and continued around `c`. */
  lemma PathIntoCycle(g: ChildTable, q: seq<Item>, c: seq<Item>) returns (m: nat, t: nat)
    requires SimplePath(g, q) && SimpleCycle(EdgesOf(g), c) && Last(q) in c
    ensures m < |q| && t < |c| && q[m] == c[t] && forall i :: 0 <= i < m ==> q[i] !in c
  {
    m := 0;
    while q[m] !in c
      decreases |q| - m
      invariant m < |q| && forall i :: 0 <= i < m ==> q[i] !in c
    {
      m := m + 1;
    }
    t :| 0 <= t < |c| && c[t] == q[m];
  }

  lemma RotatedCycle(es: Edges, c: seq<Item>, t: nat)
    requires SimpleCycle(es, c) && t < |c|
    ensures SimpleCycle(es, Rotate(c, t))
  {
  }

  lemma AroundCycle(g: ChildTable, q: seq<Item>, c: seq<Item>, m: nat)
    requires SimplePath(g, q) && SimpleCycle(EdgesOf(g), c) && m < |q| && q[m] == c[0]
    requires forall i :: 0 <= i < m ==> q[i] !in c
    ensures SimplePath(g, q[..m] + c) && (q[..m] + c)[0] == q[0]
    ensures (Last(q[..m] + c), c[0]) in EdgesOf(g)
    ensures c[0] in q[..m] + c && (q[..m] + c)[IndexOf(q[..m] + c, c[0])..] == c
  {
  }

  /** A cycle entered at its first item by a path from a drained root is recorded. */
  lemma EnteredCycleRecorded(g: ChildTable, cycles: seq<seq<Item>>, q: seq<Item>, c: seq<Item>, m: nat)
    requires SimplePath(g, q) && Drained(g, cycles, q[0]) && SimpleCycle(EdgesOf(g), c)
    requires m < |q| && q[m] == c[0] && forall i :: 0 <= i < m ==> q[i] !in c
    ensures Recorded(cycles, c)
  {
    hide SimplePath, EdgesOf, Recorded;
    AroundCycle(g, q, c, m);
    assert Explored(g, cycles, q[..m] + c);
  }

  lemma RecordedAsRotation(cycles: seq<seq<Item>>, c: seq<Item>, t: nat)
    requires t < |c| && Recorded(cycles, Rotate(c, t))
    ensures Recorded(cycles, c)
  {
    hide IsRotation, Rotate;
    var i :| 0 <= i < |cycles| && IsRotation(cycles[i], Rotate(c, t));
    RotationByIndex(c, t);
    RotationSymmetric(c, Rotate(c, t));
    RotationTransitive(cycles[i], Rotate(c, t), c);
  }

  lemma CycleRecorded(g: ChildTable, cycles: seq<seq<Item>>, roots: set<Item>, c: seq<Item>, q: seq<Item>)
    requires forall r :: r in roots ==> Drained(g, cycles, r)
    requires SimpleCycle(EdgesOf(g), c) && SimplePath(g, q) && q[0] in roots && Last(q) in c
    ensures Recorded(cycles, c)
  {
    hide SimplePath, SimpleCycle, EdgesOf, Drained, Recorded;
    var m, t := PathIntoCycle(g, q, c);
    RotatedCycle(EdgesOf(g), c, t);
    assert forall x :: x in Rotate(c, t) ==> x in c;
    EnteredCycleRecorded(g, cycles, q, Rotate(c, t), m);
    RecordedAsRotation(cycles, c, t);
  }

  lemma RotationByIndex<T>(s: seq<T>, t: nat)
    requires t < |s|
    ensures IsRotation(s, Rotate(s, t))
  {
  }

  lemma AllFound(g: ChildTable, cycles: seq<seq<Item>>, roots: set<Item>, visited: set<Item>, seen: set<Item>)
    requires Searched(g, cycles, roots, visited, seen) && seen == g.Keys
    ensures AllSimpleCycles(g, cycles) && NoTwoRotated(cycles)
    ensures forall c :: SimpleCycle(EdgesOf(g), c) ==> Recorded(cycles, c)
  {
    hide AllSimpleCycles, NoTwoRotated, Drained, Recorded;
    forall c | SimpleCycle(EdgesOf(g), c) ensures Recorded(cycles, c) {
      var x := c[0];
      assert x in g by { KeyOnCycle(g, c); }
      if x in roots {
        assert SimplePath(g, [x]);
        CycleRecorded(g, cycles, roots, c, [x]);
      } else {
        var q :| SimplePath(g, q) && q[0] in roots && Last(q) == x;
        CycleRecorded(g, cycles, roots, c, q);
      }
    }
  }

  lemma KeyOnCycle(g: ChildTable, c: seq<Item>)
    requires SimpleCycle(EdgesOf(g), c)
    ensures c[0] in g
  {
    if |c| > 1 {
      assert (c[0], c[0 + 1]) in EdgesOf(g);
    }
  }

  // ---------------------------------------------------------------- find_cycles

  /** All cycles the generator yields, for any iteration order of the dictionary. */
  method FindCycles(g: ChildTable) returns (cycles: seq<seq<Item>>)
    ensures AllSimpleCycles(g, cycles) && NoTwoRotated(cycles)
    ensures forall c :: SimpleCycle(EdgesOf(g), c) ==> Recorded(cycles, c)
  {
    hide Searched, Searching, Extending, Found, AllSimpleCycles, NoTwoRotated, SimpleCycle, EdgesOf, NodesOf;
    hide SimplePath, IsRotation, StackWeight, Extensions, Weight, Degree;
    cycles := [];
    var visitedNodes: set<Item> := {};
    var left := g.Keys;
    ghost var roots: set<Item>, seen: set<Item> := {}, {};
    ghost var size := |NodesOf(g)|;
    ghost var degree := DegreeBound(g);
    SearchStart(g);
    while left != {}
      invariant seen == g.Keys - left && left <= g.Keys && Searched(g, cycles, roots, visitedNodes, seen)
      decreases left
    {
      var root :| root in left;
      left := left - {root};
      RootStart(g, cycles, roots, visitedNodes, seen, root);
      seen := seen + {root};
      if root in visitedNodes {
        continue;
      }
      var paths := [[root]];
      while paths != []
        invariant Searching(g, cycles, roots, visitedNodes, seen, root, paths)
        decreases StackWeight(degree, size, paths)
      {
        var path := Last(paths);
        ghost var rest := paths[..|paths| - 1];
        PopPath(g, cycles, roots, visitedNodes, seen, root, paths, path);
        PopWeight(g, degree, paths, path);
        paths := paths[..|paths| - 1];
        var parent := Last(path);
        if parent !in g {
          continue;
        }
        var children := g[parent];
        for j := 0 to |children|
          invariant Extending(g, cycles, roots, visitedNodes, seen, root, paths, path, children, j)
          invariant StackWeight(degree, size, paths)
            <= StackWeight(degree, size, rest) + Extensions(degree, size, path, j)
        {
          var child := children[j];
          if child in path {
            // This is a cycle; check that it is not a duplicate.
            var cycle := path[IndexOf(path, child)..];
            var isDup := false;
            for n := 0 to |cycles|
              invariant isDup <==> Recorded(cycles[..n], cycle)
            {
              var r := IsRotated(cycles[n], cycle);
              if r == Value(true) {
                isDup := true;
                break;
              }
            }
            assert isDup <==> Recorded(cycles, cycle);
            BackEdge(g, cycles, roots, visitedNodes, seen, root, paths, path, children, j);
            ExtensionsGrow(degree, size, path, j);
            if !isDup {
              cycles := cycles + [cycle];
            }
          } else {
            PushPath(g, cycles, roots, visitedNodes, seen, root, paths, path, children, j);
            PushWeight(g, degree, paths, path, child, j);
            paths := paths + [path + [child]];
            visitedNodes := visitedNodes + {child};
          }
        }
        ChildrenDone(g, cycles, roots, visitedNodes, seen, root, paths, path, children);
      }
      RootDone(g, cycles, roots, visitedNodes, seen, root);
      roots := roots + {root};
    }
    AllFound(g, cycles, roots, visitedNodes, seen);
  }
}
