/** Enumerating the configuration paths of a type: `StaticInformation::DoGather` walks the
    type graph depth first with an explicit stack of ancestors and one of path segments. */
module ConfigPaths {

  type TypeId(==, !new)
  type Label = string

  /** What an attribute's checker says: a pointer to a type, a container of a type, or neither. */
  datatype Checker = Pointer(pointee: TypeId) | Container(item: TypeId) | Plain
  datatype Attribute = Attribute(name: Label, checker: Checker)

  datatype Entry = Entry(tid: TypeId, path: seq<Label>)

  datatype Edge = Edge(segment: Label, target: TypeId)

  /** The registry of types, read through static TypeId functions. */
  datatype Registry = Registry(
    objectType: TypeId,
    registered: seq<TypeId>,
    attributes: map<TypeId, seq<Attribute>>,
    childOf: set<(TypeId, TypeId)>,
    names: map<TypeId, Label>)
  {
    function AttributesOf(t: TypeId): seq<Attribute> {
      if t in attributes then attributes[t] else []
    }

    predicate IsChildOf(child: TypeId, t: TypeId) {
      (child, t) in childOf
    }

    function NameOf(t: TypeId): Label {
      if t in names then names[t] else ""
    }
  }

  // ---------------------------------------------------------------- the graph

  function AttributeEdges(r: Registry, attrs: seq<Attribute>): seq<Edge> {
    if attrs == [] then []
    else
      var front, info := AttributeEdges(r, attrs[..|attrs| - 1]), attrs[|attrs| - 1];
      match info.checker
      case Pointer(pointee) => if pointee == r.objectType then front else front + [Edge(info.name, pointee)]
      case Container(item) => front + [Edge(info.name + "/[i]", item)]
      case Plain => front
  }

  function ChildEdges(r: Registry, t: TypeId, types: seq<TypeId>): seq<Edge> {
    if types == [] then []
    else
      var front, child := ChildEdges(r, t, types[..|types| - 1]), types[|types| - 1];
      if r.IsChildOf(child, t) then front + [Edge("$" + r.NameOf(child), child)] else front
  }

  function AggregateEdges(r: Registry, t: TypeId, aggregates: seq<(TypeId, TypeId)>): seq<Edge> {
    if aggregates == [] then []
    else
      var front, item := AggregateEdges(r, t, aggregates[..|aggregates| - 1]), aggregates[|aggregates| - 1];
      if item.0 == t || item.1 == t then
        var other := if item.1 == t then item.0 else item.1;
        front + [Edge("$" + r.NameOf(other), other)]
      else front
  }

  /** Every way out of a type, in the order in which it is followed. */
  function Edges(r: Registry, aggregates: seq<(TypeId, TypeId)>, t: TypeId): seq<Edge> {
    AttributeEdges(r, r.AttributesOf(t)) + ChildEdges(r, t, r.registered) + AggregateEdges(r, t, aggregates)
  }

  type Aggregates = seq<(TypeId, TypeId)>

  // ---- which edges, from where

  ghost predicate AttributeGives(r: Registry, attrs: seq<Attribute>, i: nat, e: Edge) {
    i < |attrs| && match attrs[i].checker
       case Pointer(pointee) => pointee != r.objectType && e == Edge(attrs[i].name, pointee)
       case Container(item) => e == Edge(attrs[i].name + "/[i]", item)
       case Plain => false
  }

  ghost predicate AttributeOrigins(r: Registry, attrs: seq<Attribute>, es: seq<Edge>, at: seq<nat>) {
    && |at| == |es|
    && (forall k :: 0 <= k < |at| ==> AttributeGives(r, attrs, at[k], es[k]))
    && (forall k, m :: 0 <= k < m < |at| ==> at[k] < at[m])
    && (forall i: nat, e :: AttributeGives(r, attrs, i, e) ==> i in at)
  }

  lemma {:induction false} AttributeInOrder(r: Registry, attrs: seq<Attribute>) returns (at: seq<nat>)
    ensures AttributeOrigins(r, attrs, AttributeEdges(r, attrs), at)
  {
    at := [];
    if attrs != [] {
      var n := |attrs| - 1;
      var front := attrs[..n];
      at := AttributeInOrder(r, front);
      assert forall i: nat, e :: i < n ==> (AttributeGives(r, front, i, e) <==> AttributeGives(r, attrs, i, e));
      if |AttributeEdges(r, attrs)| > |AttributeEdges(r, front)| {
        at := at + [n];
      }
    }
  }

  ghost predicate ChildGives(r: Registry, t: TypeId, types: seq<TypeId>, i: nat, e: Edge) {
    i < |types| && r.IsChildOf(types[i], t) && e == Edge("$" + r.NameOf(types[i]), types[i])
  }

  ghost predicate ChildOrigins(r: Registry, t: TypeId, types: seq<TypeId>, es: seq<Edge>, at: seq<nat>) {
    && |at| == |es|
    && (forall k :: 0 <= k < |at| ==> ChildGives(r, t, types, at[k], es[k]))
    && (forall k, m :: 0 <= k < m < |at| ==> at[k] < at[m])
    && (forall i: nat, e :: ChildGives(r, t, types, i, e) ==> i in at)
  }

  lemma {:induction false} ChildInOrder(r: Registry, t: TypeId, types: seq<TypeId>) returns (at: seq<nat>)
    ensures ChildOrigins(r, t, types, ChildEdges(r, t, types), at)
  {
    at := [];
    if types != [] {
      var n := |types| - 1;
      var front := types[..n];
      at := ChildInOrder(r, t, front);
      assert forall i: nat, e :: i < n ==> (ChildGives(r, t, front, i, e) <==> ChildGives(r, t, types, i, e));
      if |ChildEdges(r, t, types)| > |ChildEdges(r, t, front)| {
        at := at + [n];
      }
    }
  }

  ghost predicate AggregateGives(r: Registry, t: TypeId, aggs: Aggregates, i: nat, e: Edge) {
    i < |aggs| && (aggs[i].0 == t || aggs[i].1 == t)
    && var other := if aggs[i].1 == t then aggs[i].0 else aggs[i].1; e == Edge("$" + r.NameOf(other), other)
  }

  ghost predicate AggregateOrigins(r: Registry, t: TypeId, aggs: Aggregates, es: seq<Edge>, at: seq<nat>) {
    && |at| == |es|
    && (forall k :: 0 <= k < |at| ==> AggregateGives(r, t, aggs, at[k], es[k]))
    && (forall k, m :: 0 <= k < m < |at| ==> at[k] < at[m])
    && (forall i: nat, e :: AggregateGives(r, t, aggs, i, e) ==> i in at)
  }

  lemma {:induction false} AggregateInOrder(r: Registry, t: TypeId, aggs: Aggregates) returns (at: seq<nat>)
    ensures AggregateOrigins(r, t, aggs, AggregateEdges(r, t, aggs), at)
  {
    at := [];
    if aggs != [] {
      var n := |aggs| - 1;
      var front := aggs[..n];
      at := AggregateInOrder(r, t, front);
      assert forall i: nat, e :: i < n ==> (AggregateGives(r, t, front, i, e) <==> AggregateGives(r, t, aggs, i, e));
      if |AggregateEdges(r, t, aggs)| > |AggregateEdges(r, t, front)| {
        at := at + [n];
      }
    }
  }

  /** The ways out of a type: those its attributes give, then those the registered types give, then
      those the aggregations give, each in order and none left out. */
  lemma EdgesExact(r: Registry, aggs: Aggregates, t: TypeId) returns (a: seq<nat>, b: seq<nat>, c: seq<nat>)
    ensures var es, m, n := Edges(r, aggs, t), |a|, |a| + |b|;
      && |es| == n + |c|
      && AttributeOrigins(r, r.AttributesOf(t), es[..m], a)
      && ChildOrigins(r, t, r.registered, es[m..n], b)
      && AggregateOrigins(r, t, aggs, es[n..], c)
  {
    hide AttributeOrigins, ChildOrigins, AggregateOrigins, AttributeEdges, ChildEdges, AggregateEdges;
    a := AttributeInOrder(r, r.AttributesOf(t));
    b := ChildInOrder(r, t, r.registered);
    c := AggregateInOrder(r, t, aggs);
    OriginsFit(r, aggs, t, a, b, c);
    var x, y, z := AttributeEdges(r, r.AttributesOf(t)), ChildEdges(r, t, r.registered), AggregateEdges(r, t, aggs);
    var es := Edges(r, aggs, t);
    assert es[..|x|] == x && es[|x|..|x| + |y|] == y && es[|x| + |y|..] == z;
  }

  lemma OriginsFit(r: Registry, aggs: Aggregates, t: TypeId, a: seq<nat>, b: seq<nat>, c: seq<nat>)
    requires AttributeOrigins(r, r.AttributesOf(t), AttributeEdges(r, r.AttributesOf(t)), a)
    requires ChildOrigins(r, t, r.registered, ChildEdges(r, t, r.registered), b)
    requires AggregateOrigins(r, t, aggs, AggregateEdges(r, t, aggs), c)
    ensures |a| == |AttributeEdges(r, r.AttributesOf(t))| && |b| == |ChildEdges(r, t, r.registered)|
    ensures |c| == |AggregateEdges(r, t, aggs)|
  {
  }

  /** All types an edge can lead to. */
  ghost function Targets(r: Registry, aggs: Aggregates): set<TypeId> {
    (set t, e | t in r.attributes && e in AttributeEdges(r, r.attributes[t]) :: e.target)
    + (set t | t in r.registered) + (set a | a in aggs :: a.0) + (set a | a in aggs :: a.1)
  }

  /** The types a search from `t` may still enter. */
  ghost function Unentered(r: Registry, aggs: Aggregates, t: TypeId, ancestors: seq<TypeId>): set<TypeId> {
    set x | x in Targets(r, aggs) + {t} && x !in ancestors
  }

  lemma {:induction false} ChildTarget(r: Registry, t: TypeId, types: seq<TypeId>, e: Edge)
    requires e in ChildEdges(r, t, types)
    ensures e.target in types
  {
    if e in ChildEdges(r, t, types[..|types| - 1]) { ChildTarget(r, t, types[..|types| - 1], e); }
  }

  lemma {:induction false} AggregateTarget(r: Registry, t: TypeId, aggs: Aggregates, e: Edge)
    requires e in AggregateEdges(r, t, aggs)
    ensures exists a :: a in aggs && (a.0 == e.target || a.1 == e.target)
  {
    var front := aggs[..|aggs| - 1];
    if e in AggregateEdges(r, t, front) {
      AggregateTarget(r, t, front, e);
      var a :| a in front && (a.0 == e.target || a.1 == e.target);
      assert a in aggs;
    } else {
      assert aggs[|aggs| - 1] in aggs;
    }
  }

  lemma TargetKnown(r: Registry, aggs: Aggregates, t: TypeId, k: nat)
    requires k < |Edges(r, aggs, t)|
    ensures Edges(r, aggs, t)[k].target in Targets(r, aggs)
  {
    var e := Edges(r, aggs, t)[k];
    if e in AttributeEdges(r, r.AttributesOf(t)) {
      assert t in r.attributes;
    } else if e in ChildEdges(r, t, r.registered) {
      ChildTarget(r, t, r.registered, e);
    } else {
      AggregateTarget(r, t, aggs, e);
    }
  }

  lemma SearchShrinks(r: Registry, aggs: Aggregates, t: TypeId, ancestors: seq<TypeId>, k: nat)
    requires t !in ancestors && k < |Edges(r, aggs, t)|
    ensures Unentered(r, aggs, Edges(r, aggs, t)[k].target, ancestors + [t]) < Unentered(r, aggs, t, ancestors)
  {
    hide Edges, Targets;
    TargetKnown(r, aggs, t, k);
    assert t in Unentered(r, aggs, t, ancestors) && t in ancestors + [t];
  }

  // ---------------------------------------------------------------- walks

  /** A walk is the list of the positions of the edges it takes. */
  type Walk = seq<nat>

  /** The walks from `t` that enter no type twice and no ancestor, in preorder. */
  ghost function Walks(r: Registry, aggs: Aggregates, t: TypeId, ancestors: seq<TypeId>): seq<Walk>
    decreases Unentered(r, aggs, t, ancestors), 1, 0
  {
    if t in ancestors then [] else [[]] + WalksVia(r, aggs, t, ancestors, |Edges(r, aggs, t)|)
  }

  /** Those of them that begin with one of the first `k` edges. */
  ghost function WalksVia(r: Registry, aggs: Aggregates, t: TypeId, ancestors: seq<TypeId>, k: nat): seq<Walk>
    requires t !in ancestors && k <= |Edges(r, aggs, t)|
    decreases Unentered(r, aggs, t, ancestors), 0, k
  {
    if k == 0 then []
    else
      SearchShrinks(r, aggs, t, ancestors, k - 1);
      WalksVia(r, aggs, t, ancestors, k - 1)
      + Prefixed(k - 1, Walks(r, aggs, Edges(r, aggs, t)[k - 1].target, ancestors + [t]))
  }

  ghost function Prefixed(k: nat, ws: seq<Walk>): seq<Walk> {
    seq(|ws|, i requires 0 <= i < |ws| => [k] + ws[i])
  }

  /** The types entered by a walk, its start included. */
  ghost function TypesAlong(r: Registry, aggs: Aggregates, t: TypeId, w: Walk): seq<TypeId>
    requires InRange(r, aggs, t, w)
  {
    if w == [] then [t] else [t] + TypesAlong(r, aggs, Edges(r, aggs, t)[w[0]].target, w[1..])
  }

  ghost predicate InRange(r: Registry, aggs: Aggregates, t: TypeId, w: Walk) {
    w == [] || (w[0] < |Edges(r, aggs, t)| && InRange(r, aggs, Edges(r, aggs, t)[w[0]].target, w[1..]))
  }

  /** Pairwise distinct, and none among the ancestors. */
  ghost predicate Fresh(ts: seq<TypeId>, ancestors: seq<TypeId>) {
    (forall i, j :: 0 <= i < j < |ts| ==> ts[i] != ts[j]) && (forall i :: 0 <= i < |ts| ==> ts[i] !in ancestors)
  }

  /** The walks to be enumerated: through pairwise distinct types avoiding the ancestors. */
  ghost predicate SimpleWalk(r: Registry, aggs: Aggregates, t: TypeId, ancestors: seq<TypeId>, w: Walk) {
    InRange(r, aggs, t, w) && Fresh(TypesAlong(r, aggs, t, w), ancestors)
  }

  /** Where a walk leads, and the path segments along it. */
  ghost function EntryOf(r: Registry, aggs: Aggregates, t: TypeId, path: seq<Label>, w: Walk): Entry
    requires InRange(r, aggs, t, w)
    decreases |w|
  {
    if w == [] then Entry(t, path)
    else
      var e := Edges(r, aggs, t)[w[0]];
      EntryOf(r, aggs, e.target, path + [e.segment], w[1..])
  }

  /** The `k`-th way out of `t` leads to `target` under the segment. */
  ghost predicate EdgeTaken(r: Registry, aggs: Aggregates, t: TypeId, k: nat, target: TypeId, segment: Label) {
    k < |Edges(r, aggs, t)| && Edges(r, aggs, t)[k] == Edge(segment, target)
  }

  /** An entry has the type a walk ends in, and after the path so far the segments of the edges it
      takes, in order. */
  lemma {:induction false} EntryExact(r: Registry, aggs: Aggregates, t: TypeId, path: seq<Label>, w: Walk)
    requires InRange(r, aggs, t, w)
    ensures var ts, entry := TypesAlong(r, aggs, t, w), EntryOf(r, aggs, t, path, w);
      && |ts| == |w| + 1 && ts[0] == t && entry.tid == ts[|w|]
      && |entry.path| == |path| + |w| && entry.path[..|path|] == path
      && forall i :: 0 <= i < |w| ==> EdgeTaken(r, aggs, ts[i], w[i], ts[i + 1], entry.path[|path| + i])
    decreases |w|
  {
    hide Edges, EdgeTaken;
    if w != [] {
      var e := Edges(r, aggs, t)[w[0]];
      var longer := path + [e.segment];
      FirstTaken(r, aggs, t, w[0]);
      EntryExact(r, aggs, e.target, longer, w[1..]);
      var ts, entry := TypesAlong(r, aggs, t, w), EntryOf(r, aggs, t, path, w);
      var rest := TypesAlong(r, aggs, e.target, w[1..]);
      assert ts == [t] + rest;
      assert entry.path[..|longer|] == longer && longer[..|path|] == path;
      assert entry.path[|path|] == longer[|path|] == e.segment;
      forall i | 0 <= i < |w| ensures EdgeTaken(r, aggs, ts[i], w[i], ts[i + 1], entry.path[|path| + i]) {
        if i > 0 {
          assert EdgeTaken(r, aggs, rest[i - 1], w[1..][i - 1], rest[i], entry.path[|longer| + (i - 1)]);
        }
      }
    }
  }

  lemma FirstTaken(r: Registry, aggs: Aggregates, t: TypeId, k: nat)
    requires k < |Edges(r, aggs, t)|
    ensures var e := Edges(r, aggs, t)[k]; EdgeTaken(r, aggs, t, k, e.target, e.segment)
  {
  }

  /** Preorder: a walk comes before its extensions, and earlier edges before later ones. */
  ghost predicate Precedes(v: Walk, w: Walk) {
    w != [] && (v == [] || v[0] < w[0] || (v[0] == w[0] && Precedes(v[1..], w[1..])))
  }

  // ---------------------------------------------------------------- the enumeration is exact

  /** `w` enters no ancestor, the ancestors growing along the way. */
  ghost predicate Avoids(r: Registry, aggs: Aggregates, t: TypeId, ancestors: seq<TypeId>, w: Walk)
    decreases |w|
  {
    t !in ancestors
    && (w == [] || (w[0] < |Edges(r, aggs, t)|
                    && Avoids(r, aggs, Edges(r, aggs, t)[w[0]].target, ancestors + [t], w[1..])))
  }

  lemma PrefixedHas(k: nat, ws: seq<Walk>, w: Walk)
    ensures w in Prefixed(k, ws) <==> w != [] && w[0] == k && w[1..] in ws
  {
    if w != [] && w[0] == k && w[1..] in ws {
      var i :| 0 <= i < |ws| && ws[i] == w[1..];
      assert Prefixed(k, ws)[i] == w;
    }
  }

  lemma {:induction false} WalksAvoid(r: Registry, aggs: Aggregates, t: TypeId, ancestors: seq<TypeId>, w: Walk)
    ensures w in Walks(r, aggs, t, ancestors) <==> Avoids(r, aggs, t, ancestors, w)
    decreases Unentered(r, aggs, t, ancestors), 1, 0
  {
    hide Edges, Unentered;
    if t !in ancestors {
      var n := |Edges(r, aggs, t)|;
      WalksViaAvoid(r, aggs, t, ancestors, n, w);
      assert w in Walks(r, aggs, t, ancestors) <==> w == [] || w in WalksVia(r, aggs, t, ancestors, n);
    }
  }

  lemma {:induction false} WalksViaAvoid(r: Registry, aggs: Aggregates, t: TypeId, ancestors: seq<TypeId>,
                                         k: nat, w: Walk)
    requires t !in ancestors && k <= |Edges(r, aggs, t)|
    ensures w in WalksVia(r, aggs, t, ancestors, k) <==>
      w != [] && w[0] < k && Avoids(r, aggs, Edges(r, aggs, t)[w[0]].target, ancestors + [t], w[1..])
    decreases Unentered(r, aggs, t, ancestors), 0, k
  {
    hide Edges, Unentered, Avoids, Prefixed, Walks;
    if k > 0 {
      WalksViaAvoid(r, aggs, t, ancestors, k - 1, w);
      SearchShrinks(r, aggs, t, ancestors, k - 1);
      var target := Edges(r, aggs, t)[k - 1].target;
      PrefixedHas(k - 1, Walks(r, aggs, target, ancestors + [t]), w);
      if w != [] {
        WalksAvoid(r, aggs, target, ancestors + [t], w[1..]);
      }
    }
  }

  lemma {:induction false} AvoidingIsSimple(r: Registry, aggs: Aggregates, t: TypeId, ancestors: seq<TypeId>, w: Walk)
    ensures Avoids(r, aggs, t, ancestors, w) <==> SimpleWalk(r, aggs, t, ancestors, w)
    decreases |w|
  {
    hide Edges, Fresh;
    if w == [] {
      SingleFresh(t, ancestors);
    } else if w[0] < |Edges(r, aggs, t)| {
      var target := Edges(r, aggs, t)[w[0]].target;
      AvoidingIsSimple(r, aggs, target, ancestors + [t], w[1..]);
      if InRange(r, aggs, t, w) {
        FreshStep(t, TypesAlong(r, aggs, target, w[1..]), ancestors);
      }
    }
  }

  lemma SingleFresh(t: TypeId, ancestors: seq<TypeId>)
    ensures Fresh([t], ancestors) <==> t !in ancestors
  {
    assert [t][0] == t;
  }

  lemma FreshStep(t: TypeId, rest: seq<TypeId>, ancestors: seq<TypeId>)
    ensures Fresh([t] + rest, ancestors) <==> t !in ancestors && Fresh(rest, ancestors + [t])
  {
    var ts := [t] + rest;
    assert ts[0] == t && forall i :: 0 <= i < |rest| ==> ts[i + 1] == rest[i];
    if Fresh(ts, ancestors) {
      forall i | 0 <= i < |rest| ensures rest[i] !in ancestors + [t] {
        assert ts[0] != ts[i + 1] && ts[i + 1] !in ancestors;
      }
      forall i, j | 0 <= i < j < |rest| ensures rest[i] != rest[j] {
        assert ts[i + 1] != ts[j + 1];
      }
    }
    if t !in ancestors && Fresh(rest, ancestors + [t]) {
      forall i | 0 <= i < |ts| ensures ts[i] !in ancestors {
        if i > 0 { assert rest[i - 1] !in ancestors + [t]; }
      }
      forall i, j | 0 <= i < j < |ts| ensures ts[i] != ts[j] {
        if i == 0 { assert rest[j - 1] !in ancestors + [t]; } else { assert rest[i - 1] != rest[j - 1]; }
      }
    }
  }

  /** The walks enumerated are exactly the simple ones. */
  lemma WalksExact(r: Registry, aggs: Aggregates, t: TypeId, ancestors: seq<TypeId>, w: Walk)
    ensures w in Walks(r, aggs, t, ancestors) <==> SimpleWalk(r, aggs, t, ancestors, w)
  {
    WalksAvoid(r, aggs, t, ancestors, w);
    AvoidingIsSimple(r, aggs, t, ancestors, w);
  }

  ghost predicate Preordered(ws: seq<Walk>) {
    forall i, j :: 0 <= i < j < |ws| ==> Precedes(ws[i], ws[j])
  }

  lemma {:induction false} WalksPreordered(r: Registry, aggs: Aggregates, t: TypeId, ancestors: seq<TypeId>)
    ensures Preordered(Walks(r, aggs, t, ancestors))
    decreases Unentered(r, aggs, t, ancestors), 1, 0
  {
    hide Edges, Unentered, Avoids, WalksVia;
    if t !in ancestors {
      var n := |Edges(r, aggs, t)|;
      var via := WalksVia(r, aggs, t, ancestors, n);
      WalksViaPreordered(r, aggs, t, ancestors, n);
      forall i | 0 <= i < |via| ensures via[i] != [] {
        WalksViaAvoid(r, aggs, t, ancestors, n, via[i]);
      }
    }
  }

  lemma {:induction false} WalksViaPreordered(r: Registry, aggs: Aggregates, t: TypeId, ancestors: seq<TypeId>, k: nat)
    requires t !in ancestors && k <= |Edges(r, aggs, t)|
    ensures Preordered(WalksVia(r, aggs, t, ancestors, k))
    decreases Unentered(r, aggs, t, ancestors), 0, k
  {
    hide Edges, Unentered, Avoids, Walks;
    if k > 0 {
      WalksViaPreordered(r, aggs, t, ancestors, k - 1);
      SearchShrinks(r, aggs, t, ancestors, k - 1);
      var below := Walks(r, aggs, Edges(r, aggs, t)[k - 1].target, ancestors + [t]);
      WalksPreordered(r, aggs, Edges(r, aggs, t)[k - 1].target, ancestors + [t]);
      var via := WalksVia(r, aggs, t, ancestors, k - 1);
      forall i | 0 <= i < |via| ensures via[i] != [] && via[i][0] < k - 1 {
        WalksViaAvoid(r, aggs, t, ancestors, k - 1, via[i]);
      }
      AppendPreordered(via, k - 1, below);
    }
  }

  lemma AppendPreordered(via: seq<Walk>, k: nat, below: seq<Walk>)
    requires Preordered(via) && Preordered(below)
    requires forall i :: 0 <= i < |via| ==> via[i] != [] && via[i][0] < k
    ensures Preordered(via + Prefixed(k, below))
  {
  }

  lemma {:induction false} PrecedesIrreflexive(w: Walk)
    ensures !Precedes(w, w)
  {
    if w != [] { PrecedesIrreflexive(w[1..]); }
  }

  /** No walk is enumerated twice. */
  lemma WalksDistinct(r: Registry, aggs: Aggregates, t: TypeId, ancestors: seq<TypeId>, i: nat, j: nat)
    requires i < j < |Walks(r, aggs, t, ancestors)|
    ensures Walks(r, aggs, t, ancestors)[i] != Walks(r, aggs, t, ancestors)[j]
  {
    WalksPreordered(r, aggs, t, ancestors);
    PrecedesIrreflexive(Walks(r, aggs, t, ancestors)[i]);
  }

  // ---------------------------------------------------------------- what is recorded

  ghost predicate AllInRange(r: Registry, aggs: Aggregates, t: TypeId, ws: seq<Walk>) {
    forall i :: 0 <= i < |ws| ==> InRange(r, aggs, t, ws[i])
  }

  ghost function Entries(r: Registry, aggs: Aggregates, t: TypeId, path: seq<Label>, ws: seq<Walk>): seq<Entry>
    requires AllInRange(r, aggs, t, ws)
  {
    seq(|ws|, i requires 0 <= i < |ws| => EntryOf(r, aggs, t, path, ws[i]))
  }

  lemma WalksInRange(r: Registry, aggs: Aggregates, t: TypeId, ancestors: seq<TypeId>)
    ensures AllInRange(r, aggs, t, Walks(r, aggs, t, ancestors))
  {
    forall i | 0 <= i < |Walks(r, aggs, t, ancestors)| ensures InRange(r, aggs, t, Walks(r, aggs, t, ancestors)[i]) {
      WalksExact(r, aggs, t, ancestors, Walks(r, aggs, t, ancestors)[i]);
    }
  }

  /** What a search from `t` is to record: an entry for each of its walks. */
  ghost function Gathered(r: Registry, aggs: Aggregates, t: TypeId, ancestors: seq<TypeId>,
                          path: seq<Label>): seq<Entry>
  {
    WalksInRange(r, aggs, t, ancestors);
    Entries(r, aggs, t, path, Walks(r, aggs, t, ancestors))
  }

  /** The part of it that has to do with the first `k` edges out of `t`. */
  ghost function GatheredVia(r: Registry, aggs: Aggregates, t: TypeId, ancestors: seq<TypeId>, path: seq<Label>,
                             k: nat): seq<Entry>
    requires t !in ancestors && k <= |Edges(r, aggs, t)|
  {
    ViaInRange(r, aggs, t, ancestors, k);
    Entries(r, aggs, t, path, [[]] + WalksVia(r, aggs, t, ancestors, k))
  }

  lemma ViaInRange(r: Registry, aggs: Aggregates, t: TypeId, ancestors: seq<TypeId>, k: nat)
    requires t !in ancestors && k <= |Edges(r, aggs, t)|
    ensures AllInRange(r, aggs, t, [[]] + WalksVia(r, aggs, t, ancestors, k))
  {
    hide Edges, WalksVia;
    var ws := [[]] + WalksVia(r, aggs, t, ancestors, k);
    forall i | 0 <= i < |ws| ensures InRange(r, aggs, t, ws[i]) {
      if i > 0 {
        var w := ws[i];
        assert w in WalksVia(r, aggs, t, ancestors, k);
        WalksViaAvoid(r, aggs, t, ancestors, k, w);
        AvoidingIsSimple(r, aggs, Edges(r, aggs, t)[w[0]].target, ancestors + [t], w[1..]);
      }
    }
  }

  lemma GatheredNone(r: Registry, aggs: Aggregates, t: TypeId, ancestors: seq<TypeId>, path: seq<Label>)
    ensures t in ancestors ==> Gathered(r, aggs, t, ancestors, path) == []
  {
  }

  lemma GatheredStart(r: Registry, aggs: Aggregates, t: TypeId, ancestors: seq<TypeId>, path: seq<Label>)
    requires t !in ancestors
    ensures GatheredVia(r, aggs, t, ancestors, path, 0) == [Entry(t, path)]
    ensures GatheredVia(r, aggs, t, ancestors, path, |Edges(r, aggs, t)|) == Gathered(r, aggs, t, ancestors, path)
  {
  }

  lemma GatheredStep(r: Registry, aggs: Aggregates, t: TypeId, ancestors: seq<TypeId>, path: seq<Label>, k: nat)
    requires t !in ancestors && k < |Edges(r, aggs, t)|
    ensures var e := Edges(r, aggs, t)[k];
      GatheredVia(r, aggs, t, ancestors, path, k + 1)
      == GatheredVia(r, aggs, t, ancestors, path, k) + Gathered(r, aggs, e.target, ancestors + [t], path + [e.segment])
  {
    hide Edges, Unentered;
    var e := Edges(r, aggs, t)[k];
    var below := Walks(r, aggs, e.target, ancestors + [t]);
    ViaInRange(r, aggs, t, ancestors, k);
    ViaInRange(r, aggs, t, ancestors, k + 1);
    WalksInRange(r, aggs, e.target, ancestors + [t]);
    var before, after := [[]] + WalksVia(r, aggs, t, ancestors, k), [[]] + WalksVia(r, aggs, t, ancestors, k + 1);
    assert after == before + Prefixed(k, below);
    forall i | 0 <= i < |below|
      ensures InRange(r, aggs, t, [k] + below[i])
      ensures EntryOf(r, aggs, t, path, [k] + below[i]) == EntryOf(r, aggs, e.target, path + [e.segment], below[i])
    {
      assert ([k] + below[i])[1..] == below[i];
    }
  }

  ghost function PathsOf(entries: seq<Entry>, t: TypeId): seq<seq<Label>> {
    if entries == [] then []
    else
      var last := entries[|entries| - 1];
      PathsOf(entries[..|entries| - 1], t) + if last.tid == t then [last.path] else []
  }

  /** A path is listed for a type as often as it was recorded for it. */
  lemma {:induction false} PathsCount(entries: seq<Entry>, t: TypeId, p: seq<Label>)
    ensures multiset(PathsOf(entries, t))[p] == multiset(entries)[Entry(t, p)]
  {
    if entries != [] {
      var front, last := entries[..|entries| - 1], entries[|entries| - 1];
      PathsCount(front, t, p);
      assert entries == front + [last];
    }
  }

  /** `paths` are those of all entries of the type, in the order of the entries. */
  ghost predicate PathsAt(entries: seq<Entry>, t: TypeId, paths: seq<seq<Label>>, at: seq<nat>) {
    && |at| == |paths|
    && (forall k :: 0 <= k < |at| ==> at[k] < |entries| && entries[at[k]] == Entry(t, paths[k]))
    && (forall k, m :: 0 <= k < m < |at| ==> at[k] < at[m])
    && (forall i: nat :: i < |entries| && entries[i].tid == t ==> i in at)
  }

  lemma PathsPush(entries: seq<Entry>, t: TypeId, paths: seq<seq<Label>>, at: seq<nat>, entry: Entry)
    requires PathsAt(entries, t, paths, at)
    ensures if entry.tid == t then PathsAt(entries + [entry], t, paths + [entry.path], at + [|entries|])
            else PathsAt(entries + [entry], t, paths, at)
  {
    if entry.tid == t {
      forall i: nat | i < |entries + [entry]| && (entries + [entry])[i].tid == t ensures i in at + [|entries|] {
        if i < |entries| { assert entries[i].tid == t; }
      }
    }
  }

  lemma NoPaths(t: TypeId)
    ensures PathsAt([], t, [], [])
  {
  }

  /** After a search without ancestors a type's paths are the label sequences of the walks through
      distinct types that lead to it. */
  lemma PathsExact(r: Registry, aggs: Aggregates, t: TypeId, u: TypeId, p: seq<Label>)
    ensures p in PathsOf(Gathered(r, aggs, t, [], []), u) <==>
      exists w :: SimpleWalk(r, aggs, t, [], w) && EntryOf(r, aggs, t, [], w) == Entry(u, p)
  {
    var ws, es := Walks(r, aggs, t, []), Gathered(r, aggs, t, [], []);
    WalksInRange(r, aggs, t, []);
    PathsCount(es, u, p);
    if p in PathsOf(es, u) {
      assert p in multiset(PathsOf(es, u)) && Entry(u, p) in multiset(es);
      var i :| 0 <= i < |es| && es[i] == Entry(u, p);
      assert ws[i] in ws;
      WalksExact(r, aggs, t, [], ws[i]);
    }
    forall w | SimpleWalk(r, aggs, t, [], w) && EntryOf(r, aggs, t, [], w) == Entry(u, p)
      ensures p in PathsOf(es, u)
    {
      WalksExact(r, aggs, t, [], w);
      var i :| 0 <= i < |ws| && ws[i] == w;
      assert es[i] == Entry(u, p);
      assert p in multiset(PathsOf(es, u));
    }
  }

  // ---- how the three loops go through the edges

  lemma {:induction false} AttributePrefix(r: Registry, attrs: seq<Attribute>, i: nat)
    requires i <= |attrs|
    ensures AttributeEdges(r, attrs[..i]) <= AttributeEdges(r, attrs)
  {
    if i == |attrs| {
      assert attrs[..i] == attrs;
    } else {
      AttributePrefix(r, attrs[..|attrs| - 1], i);
      assert attrs[..|attrs| - 1][..i] == attrs[..i];
    }
  }

  lemma {:induction false} ChildPrefix(r: Registry, t: TypeId, types: seq<TypeId>, i: nat)
    requires i <= |types|
    ensures ChildEdges(r, t, types[..i]) <= ChildEdges(r, t, types)
  {
    if i == |types| {
      assert types[..i] == types;
    } else {
      ChildPrefix(r, t, types[..|types| - 1], i);
      assert types[..|types| - 1][..i] == types[..i];
    }
  }

  lemma {:induction false} AggregatePrefix(r: Registry, t: TypeId, aggs: Aggregates, i: nat)
    requires i <= |aggs|
    ensures AggregateEdges(r, t, aggs[..i]) <= AggregateEdges(r, t, aggs)
  {
    if i == |aggs| {
      assert aggs[..i] == aggs;
    } else {
      AggregatePrefix(r, t, aggs[..|aggs| - 1], i);
      assert aggs[..|aggs| - 1][..i] == aggs[..i];
    }
  }

  /** The edges the first `i` attributes give. */
  ghost function AttributesDone(r: Registry, t: TypeId, i: nat): nat
    requires i <= |r.AttributesOf(t)|
  {
    |AttributeEdges(r, r.AttributesOf(t)[..i])|
  }

  ghost function ChildrenDone(r: Registry, t: TypeId, i: nat): nat
    requires i <= |r.registered|
  {
    |AttributeEdges(r, r.AttributesOf(t))| + |ChildEdges(r, t, r.registered[..i])|
  }

  ghost function AggregatesDone(r: Registry, aggs: Aggregates, t: TypeId, i: nat): nat
    requires i <= |aggs|
  {
    |AttributeEdges(r, r.AttributesOf(t))| + |ChildEdges(r, t, r.registered)| + |AggregateEdges(r, t, aggs[..i])|
  }

  lemma DoneBounds(r: Registry, aggs: Aggregates, t: TypeId)
    ensures AttributesDone(r, t, 0) == 0
    ensures AttributesDone(r, t, |r.AttributesOf(t)|) == ChildrenDone(r, t, 0)
    ensures ChildrenDone(r, t, |r.registered|) == AggregatesDone(r, aggs, t, 0)
    ensures AggregatesDone(r, aggs, t, |aggs|) == |Edges(r, aggs, t)|
  {
    assert r.AttributesOf(t)[..|r.AttributesOf(t)|] == r.AttributesOf(t);
    assert r.registered[..|r.registered|] == r.registered;
    assert aggs[..|aggs|] == aggs;
  }

  lemma AttributeStep(r: Registry, aggs: Aggregates, t: TypeId, i: nat)
    requires i < |r.AttributesOf(t)|
    ensures var n, m, es := AttributesDone(r, t, i), AttributesDone(r, t, i + 1), Edges(r, aggs, t);
      var info := r.AttributesOf(t)[i];
      && n <= m <= |es|
      && match info.checker
         case Pointer(pointee) =>
           if pointee == r.objectType then m == n else m == n + 1 && es[n] == Edge(info.name, pointee)
         case Container(item) => m == n + 1 && es[n] == Edge(info.name + "/[i]", item)
         case Plain => m == n
  {
    var attrs := r.AttributesOf(t);
    AttributePrefix(r, attrs, i + 1);
    assert attrs[..i + 1][..i] == attrs[..i];
    var es, es' := AttributeEdges(r, attrs), AttributeEdges(r, attrs[..i + 1]);
    if |es'| > |AttributeEdges(r, attrs[..i])| {
      assert es[|es'| - 1] == es'[|es'| - 1];
    }
  }

  lemma ChildStep(r: Registry, aggs: Aggregates, t: TypeId, i: nat)
    requires i < |r.registered|
    ensures var n, m, es := ChildrenDone(r, t, i), ChildrenDone(r, t, i + 1), Edges(r, aggs, t);
      var child := r.registered[i];
      && n <= m <= |es|
      && if r.IsChildOf(child, t) then m == n + 1 && es[n] == Edge("$" + r.NameOf(child), child) else m == n
  {
    ChildPrefix(r, t, r.registered, i + 1);
    assert r.registered[..i + 1][..i] == r.registered[..i];
    var es, es' := ChildEdges(r, t, r.registered), ChildEdges(r, t, r.registered[..i + 1]);
    if |es'| > |ChildEdges(r, t, r.registered[..i])| {
      assert es[|es'| - 1] == es'[|es'| - 1];
    }
  }

  lemma AggregateStep(r: Registry, aggs: Aggregates, t: TypeId, i: nat)
    requires i < |aggs|
    ensures var n, m, es := AggregatesDone(r, aggs, t, i), AggregatesDone(r, aggs, t, i + 1), Edges(r, aggs, t);
      var other := if aggs[i].1 == t then aggs[i].0 else aggs[i].1;
      && n <= m <= |es|
      && if aggs[i].0 == t || aggs[i].1 == t then m == n + 1 && es[n] == Edge("$" + r.NameOf(other), other) else m == n
  {
    AggregatePrefix(r, t, aggs, i + 1);
    assert aggs[..i + 1][..i] == aggs[..i];
    var es, es' := AggregateEdges(r, t, aggs), AggregateEdges(r, t, aggs[..i + 1]);
    if |es'| > |AggregateEdges(r, t, aggs[..i])| {
      assert es[|es'| - 1] == es'[|es'| - 1];
    }
  }

  // ---------------------------------------------------------------- StaticInformation

  class StaticInformation {
    const registry: Registry
    var output: seq<Entry>
    var currentPath: seq<Label>
    var alreadyProcessed: seq<TypeId>
    var aggregates: Aggregates

    constructor (registry: Registry, aggregates: Aggregates)
      ensures this.registry == registry && this.aggregates == aggregates
      ensures output == [] && currentPath == [] && alreadyProcessed == []
    {
      this.registry, this.aggregates := registry, aggregates;
      output, currentPath, alreadyProcessed := [], [], [];
    }

    method RecordOutput(tid: TypeId)
      modifies this`output
      ensures output == old(output) + [Entry(tid, currentPath)]
    {
      output := output + [Entry(tid, currentPath)];
    }

    method HasAlreadyBeenProcessed(tid: TypeId) returns (processed: bool)
      ensures processed <==> tid in alreadyProcessed
    {
      for i := 0 to |alreadyProcessed|
        invariant tid !in alreadyProcessed[..i]
      {
        if alreadyProcessed[i] == tid {
          return true;
        }
      }
      return false;
    }

    /** The recorded paths of a type, in the order of their recording. */
    method Get(tid: TypeId) returns (paths: seq<seq<Label>>)
      ensures paths == PathsOf(output, tid) && exists at :: PathsAt(output, tid, paths, at)
      ensures forall p :: multiset(paths)[p] == multiset(output)[Entry(tid, p)]
    {
      hide PathsAt;
      paths := [];
      ghost var at: seq<nat> := [];
      NoPaths(tid);
      for i := 0 to |output|
        invariant paths == PathsOf(output[..i], tid) && PathsAt(output[..i], tid, paths, at)
      {
        assert output[..i + 1][..i] == output[..i] && output[..i + 1] == output[..i] + [output[i]];
        PathsPush(output[..i], tid, paths, at, output[i]);
        if output[i].tid == tid {
          paths := paths + [output[i].path];
          at := at + [i];
        }
      }
      assert output[..|output|] == output;
      forall p { PathsCount(output, tid, p); }
    }

    method Gather(tid: TypeId)
      requires alreadyProcessed == []
      modifies this`output, this`currentPath, this`alreadyProcessed
      ensures currentPath == old(currentPath) && alreadyProcessed == []
      ensures output == old(output) + Gathered(registry, aggregates, tid, [], currentPath)
    {
      DoGather(tid);
    }

    method DoGather(tid: TypeId)
      modifies this`output, this`currentPath, this`alreadyProcessed
      ensures currentPath == old(currentPath) && alreadyProcessed == old(alreadyProcessed)
      ensures output == old(output) + Gathered(registry, aggregates, tid, alreadyProcessed, currentPath)
      decreases Unentered(registry, aggregates, tid, alreadyProcessed), 1
    {
      hide *;
      GatheredNone(registry, aggregates, tid, alreadyProcessed, currentPath);
      var processed := HasAlreadyBeenProcessed(tid);
      if processed {
        return;
      }
      ghost var start := output;
      RecordOutput(tid);
      GatheredStart(registry, aggregates, tid, alreadyProcessed, currentPath);
      DoneBounds(registry, aggregates, tid);
      var attrs := registry.AttributesOf(tid);
      for i := 0 to |attrs|
        invariant currentPath == old(currentPath) && alreadyProcessed == old(alreadyProcessed)
        invariant AttributesDone(registry, tid, i) <= |Edges(registry, aggregates, tid)|
        invariant output == start +
          GatheredVia(registry, aggregates, tid, alreadyProcessed, currentPath, AttributesDone(registry, tid, i))
      {
        var info := attrs[i];
        AttributeStep(registry, aggregates, tid, i);
        match info.checker {
          case Pointer(pointee) =>
            if registry.objectType == pointee {
              continue;
            }
            Follow(tid, info.name, pointee, start, AttributesDone(registry, tid, i));
          case Container(item) =>
            Follow(tid, info.name + "/[i]", item, start, AttributesDone(registry, tid, i));
          case Plain =>
        }
      }
      for j := 0 to |registry.registered|
        invariant currentPath == old(currentPath) && alreadyProcessed == old(alreadyProcessed)
        invariant ChildrenDone(registry, tid, j) <= |Edges(registry, aggregates, tid)|
        invariant output == start +
          GatheredVia(registry, aggregates, tid, alreadyProcessed, currentPath, ChildrenDone(registry, tid, j))
      {
        var child := registry.registered[j];
        ChildStep(registry, aggregates, tid, j);
        if registry.IsChildOf(child, tid) {
          Follow(tid, "$" + registry.NameOf(child), child, start, ChildrenDone(registry, tid, j));
        }
      }
      for k := 0 to |aggregates|
        invariant currentPath == old(currentPath) && alreadyProcessed == old(alreadyProcessed)
        invariant AggregatesDone(registry, aggregates, tid, k) <= |Edges(registry, aggregates, tid)|
        invariant output == start +
          GatheredVia(registry, aggregates, tid, alreadyProcessed, currentPath,
                      AggregatesDone(registry, aggregates, tid, k))
      {
        var item := aggregates[k];
        AggregateStep(registry, aggregates, tid, k);
        if item.0 == tid || item.1 == tid {
          var other := tid;
          if item.0 == tid {
            other := item.1;
          }
          if item.1 == tid {
            other := item.0;
          }
          Follow(tid, "$" + registry.NameOf(other), other, start, AggregatesDone(registry, aggregates, tid, k));
        }
      }
    }

    /** Pushing on both stacks, searching the target, and popping again. */
    method Follow(tid: TypeId, segment: Label, target: TypeId, ghost start: seq<Entry>, ghost k: nat)
      requires tid !in alreadyProcessed
      requires k < |Edges(registry, aggregates, tid)| && Edges(registry, aggregates, tid)[k] == Edge(segment, target)
      requires output == start + GatheredVia(registry, aggregates, tid, alreadyProcessed, currentPath, k)
      modifies this`output, this`currentPath, this`alreadyProcessed
      ensures currentPath == old(currentPath) && alreadyProcessed == old(alreadyProcessed)
      ensures output == start + GatheredVia(registry, aggregates, tid, alreadyProcessed, currentPath, k + 1)
      decreases Unentered(registry, aggregates, tid, alreadyProcessed), 0
    {
      hide *;
      SearchShrinks(registry, aggregates, tid, alreadyProcessed, k);
      GatheredStep(registry, aggregates, tid, alreadyProcessed, currentPath, k);
      currentPath := currentPath + [segment];
      alreadyProcessed := alreadyProcessed + [tid];
      DoGather(target);
      alreadyProcessed := alreadyProcessed[..|alreadyProcessed| - 1];
      currentPath := currentPath[..|currentPath| - 1];
    }
  }
}
