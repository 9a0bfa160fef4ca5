/** Directed graphs as finite sets of (parent, child) edges: walks, cycles, and how
    many edges a chain ending in a node can have. */
module Digraphs {
  import opened Sequences

  /** Anything that can be a dictionary key. */
  type Item(==, !new)

  type Edges = set<(Item, Item)>

  ghost predicate Walk(es: Edges, p: seq<Item>) {
    forall i :: 0 <= i < |p| - 1 ==> (p[i], p[i + 1]) in es
  }

  /** The last item of a cycle is a parent of its first. Items may repeat. */
  ghost predicate ClosedWalk(es: Edges, p: seq<Item>) {
    p != [] && Walk(es, p) && (p[|p| - 1], p[0]) in es
  }

  ghost predicate Cyclic(es: Edges) {
    exists p :: ClosedWalk(es, p)
  }

  ghost predicate SimpleCycle(es: Edges, p: seq<Item>) {
    ClosedWalk(es, p) && Distinct(p)
  }

  /** Some chain of `k` edges ends in `x`. */
  ghost predicate HasChain(es: Edges, x: Item, k: nat) {
    k == 0 || exists y :: (y, x) in es && HasChain(es, y, k - 1)
  }

  /** The longest chain ending in `x` has exactly `k` edges. */
  ghost predicate HasDepth(es: Edges, x: Item, k: nat) {
    HasChain(es, x, k) && !HasChain(es, x, k + 1)
  }

  ghost predicate Bounded(es: Edges, x: Item) {
    exists k: nat :: !HasChain(es, x, k)
  }

  /** `HasChain` is about walks: it says that a walk of `k` edges ends in `x`. */
  lemma {:induction false} ChainIsWalk(es: Edges, x: Item, k: nat)
    ensures HasChain(es, x, k) <==> exists p :: |p| == k + 1 && p[k] == x && Walk(es, p)
  {
    if k == 0 {
      assert |[x]| == 1 && Walk(es, [x]);
    } else {
      if HasChain(es, x, k) {
        var y :| (y, x) in es && HasChain(es, y, k - 1);
        ChainIsWalk(es, y, k - 1);
        var p :| |p| == k && p[k - 1] == y && Walk(es, p);
        var q := p + [x];
        assert |q| == k + 1 && q[k] == x && Walk(es, q);
      }
      if p :| |p| == k + 1 && p[k] == x && Walk(es, p) {
        var q := p[..k];
        assert |q| == k && q[k - 1] == p[k - 1] && Walk(es, q);
        ChainIsWalk(es, p[k - 1], k - 1);
        assert (p[k - 1], p[k - 1 + 1]) in es;
      }
    }
  }

  lemma {:induction false} ChainShrinks(es: Edges, x: Item, j: nat, k: nat)
    requires j <= k && HasChain(es, x, k)
    ensures HasChain(es, x, j)
  {
    if j > 0 {
      var y :| (y, x) in es && HasChain(es, y, k - 1);
      ChainShrinks(es, y, j - 1, k - 1);
    }
  }

  lemma ChainExtends(es: Edges, y: Item, x: Item, k: nat)
    requires (y, x) in es && HasChain(es, y, k)
    ensures HasChain(es, x, k + 1)
  {
  }

  lemma DepthUnique(es: Edges, x: Item, j: nat, k: nat)
    requires HasDepth(es, x, j) && HasDepth(es, x, k)
    ensures j == k
  {
    if j < k {
      ChainShrinks(es, x, j + 1, k);
    } else if k < j {
      ChainShrinks(es, x, k + 1, j);
    }
  }

  /** Every edge leads to a strictly deeper item. */
  lemma EdgeDeepens(es: Edges, x: Item, y: Item, j: nat, k: nat)
    requires (x, y) in es && HasDepth(es, x, j) && HasDepth(es, y, k)
    ensures j < k
  {
    ChainExtends(es, x, y, j);
    if k < j {
      BoundGrows(es, y, k + 1, j + 1);
    }
  }

  lemma {:induction false} DepthExists(es: Edges, x: Item, k: nat)
    requires !HasChain(es, x, k)
    ensures exists d: nat :: d < k && HasDepth(es, x, d)
  {
    if HasChain(es, x, k - 1) {
      assert HasDepth(es, x, k - 1);
    } else {
      DepthExists(es, x, k - 1);
    }
  }

  /** Every item of a closed walk ends chains of every length. */
  lemma {:induction false} CycleUnbounded(es: Edges, p: seq<Item>, i: nat, k: nat)
    requires ClosedWalk(es, p) && i < |p|
    ensures HasChain(es, p[i], k)
    decreases k
  {
    if k > 0 {
      var j := if i == 0 then |p| - 1 else i - 1;
      CycleUnbounded(es, p, j, k - 1);
      assert (p[j], p[i]) in es by { if i > 0 { assert (p[i - 1], p[i - 1 + 1]) in es; } }
    }
  }

  ghost predicate ParentInside(es: Edges, inside: set<Item>, x: Item) {
    exists y :: y in inside && (y, x) in es
  }

  ghost predicate AllParented(es: Edges, inside: set<Item>) {
    forall x {:trigger ParentInside(es, inside, x)} :: x in inside ==> ParentInside(es, inside, x)
  }

  /** Walking backwards inside a set where everyone has a parent must close a cycle. */
  lemma ParentsInsideMakeCycle(es: Edges, inside: set<Item>)
    requires inside != {} && AllParented(es, inside)
    ensures Cyclic(es)
  {
    var p := WalkInside(es, inside, |inside| + 1);
    assert !Distinct(p) by {
      if Distinct(p) {
        DistinctFits(p, inside);
      }
    }
    var i, j :| 0 <= i < j < |p| && p[i] == p[j];
    var c := p[i..j];
    assert Walk(es, c);
    assert (p[j - 1], p[j - 1 + 1]) in es;
    assert ClosedWalk(es, c);
  }

  lemma {:induction false} WalkInside(es: Edges, inside: set<Item>, n: nat) returns (p: seq<Item>)
    requires inside != {} && n > 0 && AllParented(es, inside)
    ensures |p| == n && Walk(es, p) && forall x :: x in p ==> x in inside
  {
    if n == 1 {
      var x :| x in inside;
      p := [x];
    } else {
      var q := WalkInside(es, inside, n - 1);
      assert ParentInside(es, inside, q[0]);
      var y :| y in inside && (y, q[0]) in es;
      p := [y] + q;
    }
  }

  /** In a finite graph every node has a depth exactly when there is no cycle. */
  lemma AcyclicIffBounded(es: Edges, nodes: set<Item>)
    requires forall e :: e in es ==> e.0 in nodes && e.1 in nodes
    ensures Cyclic(es) <==> exists x :: x in nodes && !Bounded(es, x)
  {
    if Cyclic(es) {
      var p :| ClosedWalk(es, p);
      forall k: nat ensures HasChain(es, p[0], k) { CycleUnbounded(es, p, 0, k); }
      assert (p[|p| - 1], p[0]).1 in nodes;
      assert p[0] in nodes && !Bounded(es, p[0]);
    }
    var inside := set x | x in nodes && !Bounded(es, x);
    if x :| x in nodes && !Bounded(es, x) {
      forall x | x in inside ensures ParentInside(es, inside, x) {
        UnboundedParent(es, nodes, x);
      }
      assert x in inside;
      ParentsInsideMakeCycle(es, inside);
    }
  }

  /** Some walk leads from an item of a closed walk to `x`. */
  ghost predicate BelowCycle(es: Edges, x: Item) {
    exists c, p :: ClosedWalk(es, c) && LeadsFrom(es, c, p, x)
  }

  ghost predicate LeadsFrom(es: Edges, c: seq<Item>, p: seq<Item>, x: Item) {
    p != [] && Walk(es, p) && p[0] in c && p[|p| - 1] == x
  }

  /** Chains of every length end exactly in the nodes on or below a cycle. */
  lemma UnboundedIff(es: Edges, nodes: set<Item>, x: Item)
    requires forall e :: e in es ==> e.0 in nodes && e.1 in nodes
    ensures !Bounded(es, x) <==> BelowCycle(es, x)
  {
    if !Bounded(es, x) {
      LongChainTurns(es, nodes, x);
    }
    if c, p :| ClosedWalk(es, c) && LeadsFrom(es, c, p, x) {
      var i :| 0 <= i < |c| && c[i] == p[0];
      forall k: nat ensures HasChain(es, x, k) {
        CycleUnbounded(es, c, i, k);
        WalkLengthens(es, p, k);
        ChainShrinks(es, x, k, k + |p| - 1);
      }
    }
  }

  /** A chain of more edges than there are nodes meets an item twice. */
  lemma LongChainTurns(es: Edges, nodes: set<Item>, x: Item)
    requires forall e :: e in es ==> e.0 in nodes && e.1 in nodes
    requires !Bounded(es, x)
    ensures BelowCycle(es, x)
  {
    var n := |nodes| + 1;
    ChainIsWalk(es, x, n);
    var w :| |w| == n + 1 && w[n] == x && Walk(es, w);
    forall y | y in w ensures y in nodes {
      var i :| 0 <= i < |w| && w[i] == y;
      var e := if i < n then (w[i], w[i + 1]) else (w[i - 1], w[i - 1 + 1]);
      assert e in es;
    }
    if Distinct(w) {
      DistinctFits(w, nodes);
    }
    var i, j :| 0 <= i < j < |w| && w[i] == w[j];
    var c, p := w[i..j], w[j..];
    assert (w[j - 1], w[j - 1 + 1]) in es;
    assert ClosedWalk(es, c);
    assert c[0] == p[0] && LeadsFrom(es, c, p, x);
  }

  lemma {:induction false} WalkLengthens(es: Edges, p: seq<Item>, k: nat)
    requires p != [] && Walk(es, p) && HasChain(es, p[0], k)
    ensures HasChain(es, p[|p| - 1], k + |p| - 1)
  {
    if |p| > 1 {
      var front := p[..|p| - 1];
      WalkLengthens(es, front, k);
      assert (p[|p| - 2], p[|p| - 2 + 1]) in es;
      ChainExtends(es, p[|p| - 2], p[|p| - 1], k + |p| - 2);
    }
  }

  lemma UnboundedParent(es: Edges, nodes: set<Item>, x: Item)
    requires forall e :: e in es ==> e.0 in nodes && e.1 in nodes
    requires !Bounded(es, x)
    ensures exists y :: y in nodes && !Bounded(es, y) && (y, x) in es
  {
    if forall y :: (y, x) in es ==> Bounded(es, y) {
      BoundedByParents(es, x);
    }
    var y :| (y, x) in es && !Bounded(es, y);
    assert (y, x).0 in nodes;
  }

  lemma BoundedByParents(es: Edges, x: Item)
    requires forall y :: (y, x) in es ==> Bounded(es, y)
    ensures Bounded(es, x)
  {
    var parents := set e | e in es && e.1 == x :: e.0;
    forall y | y in parents ensures Bounded(es, y) {
      assert (y, x) in es;
    }
    var k := CommonBound(es, parents);
    forall y | (y, x) in es ensures !HasChain(es, y, k) {
      assert (y, x).0 in parents;
    }
    assert !HasChain(es, x, k + 1);
  }

  lemma {:induction false} CommonBound(es: Edges, xs: set<Item>) returns (k: nat)
    requires forall x :: x in xs ==> Bounded(es, x)
    ensures forall x :: x in xs ==> !HasChain(es, x, k)
  {
    if xs == {} {
      k := 0;
    } else {
      var x :| x in xs;
      var j := CommonBound(es, xs - {x});
      var m: nat :| !HasChain(es, x, m);
      k := if j < m then m else j;
      forall y | y in xs ensures !HasChain(es, y, k) {
        BoundGrows(es, y, if y == x then m else j, k);
      }
    }
  }

  lemma BoundGrows(es: Edges, x: Item, j: nat, k: nat)
    requires j <= k && !HasChain(es, x, j)
    ensures !HasChain(es, x, k)
  {
    if HasChain(es, x, k) {
      ChainShrinks(es, x, j, k);
    }
  }
}
