/**
 * The "optimal topology" of the network designer: Kruskal's algorithm over the
 * connections sorted by cost, with a union-find kept in a dictionary from node id
 * to parent id (path compression, no ranks), stopping as soon as every node
 * shares one root.
 */
module OptimalTopology {
  import opened Wrappers
  import opened Sorting
  import opened Topology

  // ---------------------------------------------------------------------------
  // The dictionary union-find as values

  /** x is a key of p: the hook the forest's per-key facts hang on. */
  ghost predicate Member<K(!new)>(p: map<K, K>, x: K)
  {
    x in p
  }

  /** The parent link out of x: to a key, and to a greater height, capped by bound. */
  ghost predicate Hop<K(!new)>(p: map<K, K>, h: map<K, nat>, bound: nat, x: K)
  {
    && x in p && p[x] in p && x in h && p[x] in h
    && h[x] <= bound && (p[x] != x ==> h[x] < h[p[x]])
  }

  /**
   * A parent dictionary is a forest when every parent is itself a key and, along
   * every parent link, a ghost height grows; `bound` caps the heights and gives
   * the walk to the root a measure.
   */
  ghost predicate Forest<K(!new)>(p: map<K, K>, h: map<K, nat>, bound: nat)
  {
    && p.Keys == h.Keys
    && forall x {:trigger Member(p, x)} :: Member(p, x) ==> Hop(p, h, bound, x)
  }

  /** The forest's fact about one key. */
  lemma ParentStep<K(!new)>(p: map<K, K>, h: map<K, nat>, bound: nat, x: K)
    requires Forest(p, h, bound) && x in p
    ensures Hop(p, h, bound, x)
  {
    assert Member(p, x);
  }

  /** The root reached from x by following parents: a fixed point of p, higher than x unless x is the root. */
  ghost function RootOf<K(!new)>(p: map<K, K>, h: map<K, nat>, bound: nat, x: K): (r: K)
    requires Forest(p, h, bound) && x in p
    ensures r in p && p[r] == r && x in h && r in h
    ensures h[x] <= h[r] && (p[x] != x ==> h[x] < h[r])
    ensures p[x] == x ==> r == x
    decreases bound - h[x]
  {
    ParentStep(p, h, bound, x);
    if p[x] == x then x
    else
      ParentStep(p, h, bound, p[x]);
      RootOf(p, h, bound, p[x])
  }

  /** comp labels every key of p with its root. */
  ghost predicate Labels<K(!new)>(p: map<K, K>, h: map<K, nat>, bound: nat, comp: map<K, K>)
    requires Forest(p, h, bound)
  {
    && p.Keys == comp.Keys
    && forall x {:trigger RootOf(p, h, bound, x)} :: x in comp ==> RootOf(p, h, bound, x) == comp[x]
  }

  /** Every label `from` becomes `to`; the other labels stay. */
  function Relabel<K(!new)>(c: map<K, K>, from: K, to: K): (r: map<K, K>)
    ensures r.Keys == c.Keys
    ensures forall x {:trigger r[x]} :: x in c ==> r[x] == (if c[x] == from then to else c[x])
  {
    map x | x in c :: if c[x] == from then to else c[x]
  }

  /** Every node its own component. */
  ghost function Singletons(nodes: seq<Node>): (c: map<string, string>)
    ensures c.Keys == NodeIds(nodes)
    ensures forall x {:trigger c[x]} :: x in c ==> c[x] == x
  {
    map x | x in NodeIds(nodes) :: x
  }

  /** Below a non-root, the root is its parent's root. */
  lemma RootOfStep<K(!new)>(p: map<K, K>, h: map<K, nat>, bound: nat, x: K)
    requires Forest(p, h, bound) && x in p && p[x] != x
    ensures p[x] in p && RootOf(p, h, bound, x) == RootOf(p, h, bound, p[x])
  {
    ParentStep(p, h, bound, x);
  }

  /** Pointing x straight at its root keeps a forest. */
  lemma CompressKeepsForest<K(!new)>(p: map<K, K>, h: map<K, nat>, bound: nat, x: K)
    requires Forest(p, h, bound) && x in p
    ensures Forest(p[x := RootOf(p, h, bound, x)], h, bound)
  {
    var p' := p[x := RootOf(p, h, bound, x)];
    forall y | Member(p', y)
      ensures Hop(p', h, bound, y)
    {
      ParentStep(p, h, bound, y);
    }
  }

  lemma CompressAtRoot<K(!new)>(p: map<K, K>, h: map<K, nat>, bound: nat, x: K)
    requires Forest(p, h, bound) && x in p
    requires Forest(p[x := RootOf(p, h, bound, x)], h, bound)
    ensures RootOf(p[x := RootOf(p, h, bound, x)], h, bound, x) == RootOf(p, h, bound, x)
  {
    var r := RootOf(p, h, bound, x);
    var p' := p[x := r];
    if r == x {
      assert p' == p;
    } else {
      RootOfStep(p', h, bound, x);
      assert p'[x] == r && p'[r] == r;
    }
  }

  lemma {:induction false} CompressKeepsRoot<K(!new)>(p: map<K, K>, h: map<K, nat>, bound: nat, x: K, y: K)
    requires Forest(p, h, bound) && x in p && y in p
    requires Forest(p[x := RootOf(p, h, bound, x)], h, bound)
    ensures RootOf(p[x := RootOf(p, h, bound, x)], h, bound, y) == RootOf(p, h, bound, y)
    decreases bound - h[y]
  {
    var p' := p[x := RootOf(p, h, bound, x)];
    if y == x {
      CompressAtRoot(p, h, bound, x);
    } else if p[y] != y {
      assert p'[y] == p[y];
      RootOfStep(p, h, bound, y);
      RootOfStep(p', h, bound, y);
      ParentStep(p, h, bound, y);
      ParentStep(p, h, bound, p[y]);
      CompressKeepsRoot(p, h, bound, x, p[y]);
    } else {
      assert p'[y] == y;
    }
  }

  /** Path compression keeps the forest and the labelling. */
  lemma CompressKeepsLabels<K(!new)>(p: map<K, K>, h: map<K, nat>, bound: nat, comp: map<K, K>, x: K)
    requires Forest(p, h, bound) && Labels(p, h, bound, comp) && x in p
    ensures Forest(p[x := RootOf(p, h, bound, x)], h, bound)
    ensures Labels(p[x := RootOf(p, h, bound, x)], h, bound, comp)
  {
    var p' := p[x := RootOf(p, h, bound, x)];
    CompressKeepsForest(p, h, bound, x);
    forall y | y in comp
      ensures RootOf(p', h, bound, y) == comp[y]
    {
      CompressKeepsRoot(p, h, bound, x, y);
      assert RootOf(p, h, bound, y) == comp[y];
    }
  }

  lemma {:induction false} RootIgnoresHeight<K(!new)>(p: map<K, K>, h1: map<K, nat>, b1: nat, h2: map<K, nat>, b2: nat, y: K)
    requires Forest(p, h1, b1) && Forest(p, h2, b2) && y in p
    ensures RootOf(p, h1, b1, y) == RootOf(p, h2, b2, y)
    decreases b1 - h1[y]
  {
    if p[y] != y {
      RootOfStep(p, h1, b1, y);
      RootOfStep(p, h2, b2, y);
      ParentStep(p, h1, b1, y);
      ParentStep(p, h1, b1, p[y]);
      RootIgnoresHeight(p, h1, b1, h2, b2, p[y]);
    }
  }

  lemma {:induction false} LinkRoot<K(!new)>(p: map<K, K>, h: map<K, nat>, bound: nat, a: K, b: K, y: K)
    requires Forest(p, h, bound) && a in p && b in p && a != b && p[a] == a && p[b] == b
    requires Forest(p[a := b], h, bound) && y in p
    ensures RootOf(p[a := b], h, bound, y) == (if RootOf(p, h, bound, y) == a then b else RootOf(p, h, bound, y))
    decreases bound - h[y]
  {
    var p' := p[a := b];
    if y == a {
      assert p'[a] == b && p'[b] == b;
      RootOfStep(p', h, bound, a);
    } else if p[y] != y {
      assert p'[y] == p[y];
      RootOfStep(p', h, bound, y);
      RootOfStep(p, h, bound, y);
      ParentStep(p, h, bound, y);
      ParentStep(p, h, bound, p[y]);
      LinkRoot(p, h, bound, a, b, p[y]);
    } else {
      assert p'[y] == y;
    }
  }

  /** The heights once root a hangs under root b: b rises above a if need be. */
  function Raised<K(!new)>(h: map<K, nat>, a: K, b: K): map<K, nat>
    requires a in h && b in h
  {
    h[b := if h[b] > h[a] then h[b] else h[a] + 1]
  }

  /** The bound once root a hangs under root b. */
  function RaisedBound<K(!new)>(h: map<K, nat>, bound: nat, a: K): nat
    requires a in h
  {
    if bound > h[a] then bound else h[a] + 1
  }

  /** Raising a root's height, within a bound no lower than before, keeps a forest. */
  lemma RaiseRoot<K(!new)>(p: map<K, K>, h: map<K, nat>, bound: nat, b: K, v: nat, bound': nat)
    requires Forest(p, h, bound) && b in p && p[b] == b && h[b] <= v <= bound' && bound <= bound'
    ensures Forest(p, h[b := v], bound')
  {
    forall y | Member(p, y)
      ensures Hop(p, h[b := v], bound', y)
    {
      ParentStep(p, h, bound, y);
    }
  }

  /** Hanging root a under a higher root b keeps a forest. */
  lemma HangKeepsForest<K(!new)>(p: map<K, K>, h: map<K, nat>, bound: nat, a: K, b: K)
    requires Forest(p, h, bound) && a in p && b in p && p[a] == a && p[b] == b && h[a] < h[b]
    ensures Forest(p[a := b], h, bound)
  {
    var p' := p[a := b];
    forall y | Member(p', y)
      ensures Hop(p', h, bound, y)
    {
      ParentStep(p, h, bound, y);
      ParentStep(p, h, bound, b);
    }
  }

  /** Hanging root a under root b sends every key labelled a to b. */
  lemma LinkKeepsLabels<K(!new)>(p: map<K, K>, h: map<K, nat>, bound: nat, comp: map<K, K>, a: K, b: K)
    requires Forest(p, h, bound) && Labels(p, h, bound, comp)
    requires a in p && b in p && a != b && p[a] == a && p[b] == b
    ensures Forest(p[a := b], Raised(h, a, b), RaisedBound(h, bound, a))
    ensures Labels(p[a := b], Raised(h, a, b), RaisedBound(h, bound, a), Relabel(comp, a, b))
  {
    var h', bound' := Raised(h, a, b), RaisedBound(h, bound, a);
    ParentStep(p, h, bound, b);
    RaiseRoot(p, h, bound, b, h'[b], bound');
    HangKeepsForest(p, h', bound', a, b);
    var after := Relabel(comp, a, b);
    forall y | y in after
      ensures RootOf(p[a := b], h', bound', y) == after[y]
    {
      RootIgnoresHeight(p, h', bound', h, bound, y);
      LinkRoot(p, h', bound', a, b, y);
      assert RootOf(p, h, bound, y) == comp[y];
    }
  }

  // ---------------------------------------------------------------------------
  // The union-find object

  /** The dictionary from node id to parent id that find and union update. */
  class NodeSet {
    var parent: map<string, string>
    /** A height per key that grows along parent links: the measure of find's recursion. */
    ghost var height: map<string, nat>
    ghost var bound: nat

    /** The dictionary is a forest whose roots label the nodes as comp does. */
    ghost predicate Represents(comp: map<string, string>)
      reads this
    {
      Forest(parent, height, bound) && Labels(parent, height, bound, comp)
    }

    /** Every node id maps to itself. */
    constructor (nodes: seq<Node>)
      ensures Represents(Singletons(nodes))
    {
      var p: map<string, string> := map[];
      for i := 0 to |nodes|
        invariant p.Keys == NodeIds(nodes[..i])
        invariant forall x :: x in p ==> p[x] == x
      {
        NodeIdsSnoc(nodes[..i], nodes[i]);
        assert nodes[..i + 1] == nodes[..i] + [nodes[i]];
        p := p[nodes[i].id := nodes[i].id];
      }
      assert nodes[..|nodes|] == nodes;
      parent := p;
      height := map x | x in p :: 0;
      bound := 0;
    }

    /** The root of id's component, its label; the nodes on the way now point straight at it. */
    method Find(id: string, ghost comp: map<string, string>) returns (r: string)
      requires Represents(comp) && id in comp
      modifies this
      ensures Represents(comp)
      ensures r == comp[id] && r in parent && parent[r] == r
      decreases bound - height[id]
    {
      if parent[id] != id {
        var next := parent[id];
        RootOfStep(parent, height, bound, id);
        ParentStep(parent, height, bound, id);
        ParentStep(parent, height, bound, next);
        assert RootOf(parent, height, bound, id) == comp[id];
        assert RootOf(parent, height, bound, next) == comp[next];
        var root := Find(next, comp);
        assert RootOf(parent, height, bound, id) == comp[id];
        CompressKeepsLabels(parent, height, bound, comp, id);
        parent := parent[id := root];
      } else {
        assert RootOf(parent, height, bound, id) == comp[id];
      }
      r := parent[id];
    }

    /** The root of id1's component goes under the root of id2's. */
    method Union(id1: string, id2: string, ghost comp: map<string, string>)
      requires Represents(comp) && id1 in comp && id2 in comp
      modifies this
      ensures Represents(Relabel(comp, comp[id1], comp[id2]))
    {
      var r1 := Find(id1, comp);
      assert comp[r1] == r1 by {
        assert RootOf(parent, height, bound, r1) == comp[r1];
      }
      var r2 := Find(id2, comp);
      assert parent[r1] == r1 by {
        assert RootOf(parent, height, bound, r1) == comp[r1];
      }
      if r1 != r2 {
        LinkKeepsLabels(parent, height, bound, comp, r1, r2);
        bound := RaisedBound(height, bound, r1);
        height := Raised(height, r1, r2);
      } else {
        assert parent[r1 := r2] == parent;
        assert Relabel(comp, r1, r2) == comp;
      }
      parent := parent[r1 := r2];
    }
  }

  /** Adding one node adds its id. */
  lemma NodeIdsSnoc(nodes: seq<Node>, n: Node)
    ensures NodeIds(nodes + [n]) == NodeIds(nodes) + {n.id}
  {
    assert n in nodes + [n];
    forall m | m in nodes
      ensures m in nodes + [n]
    {
    }
  }

  /** Each id of the nodes belongs to one of them. */
  lemma NodeIdsHas(nodes: seq<Node>, x: string) returns (i: nat)
    requires x in NodeIds(nodes)
    ensures i < |nodes| && nodes[i].id == x
  {
    var n :| n in nodes && n.id == x;
    i :| 0 <= i < |nodes| && nodes[i] == n;
  }

  /** No more distinct ids than nodes. */
  lemma {:induction false} NodeIdsSize(nodes: seq<Node>)
    ensures |NodeIds(nodes)| <= |nodes|
    decreases |nodes|
  {
    if nodes != [] {
      var init := nodes[..|nodes| - 1];
      assert nodes == init + [nodes[|nodes| - 1]];
      NodeIdsSnoc(init, nodes[|nodes| - 1]);
      NodeIdsSize(init);
    }
  }

  // ---------------------------------------------------------------------------
  // Kruskal's scan as a specification

  /** Every node id is labelled. */
  ghost predicate Covers(comp: map<string, string>, nodes: seq<Node>)
  {
    forall i :: 0 <= i < |nodes| ==> nodes[i].id in comp
  }

  /** Every node carries the first node's label. */
  ghost predicate AllJoined(comp: map<string, string>, nodes: seq<Node>)
    requires |nodes| > 0 && Covers(comp, nodes)
  {
    forall i :: 0 <= i < |nodes| ==> comp[nodes[i].id] == comp[nodes[0].id]
  }

  /** The order `(a, b) => a.cost - b.cost` sorts by: cost alone, ties kept in place. */
  function CostBefore(a: Connection, b: Connection): bool
  {
    a.cost < b.cost
  }

  lemma CostBeforeIsStrictWeakOrder()
    ensures StrictWeakOrder(CostBefore)
  {
  }

  /**
   * Kruskal's scan from position k: a connection whose endpoints carry different
   * labels is taken and the source's component joins the target's; after every
   * connection, taken or not, the scan stops once all nodes share one label.
   */
  ghost function Kruskal(es: seq<Connection>, k: nat, comp: map<string, string>, nodes: seq<Node>): seq<Connection>
    requires k <= |es| && EndpointsIn(es, comp.Keys) && |nodes| > 0 && Covers(comp, nodes)
    decreases |es| - k
  {
    if k == |es| then []
    else
      var e := es[k];
      assert e in es;
      var take := comp[e.source] != comp[e.target];
      var comp' := if take then Relabel(comp, comp[e.source], comp[e.target]) else comp;
      (if take then [e] else []) + (if AllJoined(comp', nodes) then [] else Kruskal(es, k + 1, comp', nodes))
  }

  /** What one round takes: connection e when its ends carry different labels. */
  ghost function Taken(e: Connection, comp: map<string, string>): seq<Connection>
    requires e.source in comp && e.target in comp
  {
    if comp[e.source] != comp[e.target] then [e] else []
  }

  /** The labels after one round on connection e: the source's component joins the target's when they differ. */
  ghost function Merged(e: Connection, comp: map<string, string>): (r: map<string, string>)
    requires e.source in comp && e.target in comp
    ensures r.Keys == comp.Keys
  {
    if comp[e.source] != comp[e.target] then Relabel(comp, comp[e.source], comp[e.target]) else comp
  }

  /** What the scan takes after the round at position k. */
  ghost function Rest(es: seq<Connection>, k: nat, comp: map<string, string>, nodes: seq<Node>): seq<Connection>
    requires k < |es| && EndpointsIn(es, comp.Keys) && |nodes| > 0 && Covers(comp, nodes)
  {
    assert es[k] in es;
    var comp' := Merged(es[k], comp);
    if AllJoined(comp', nodes) then [] else Kruskal(es, k + 1, comp', nodes)
  }

  /** The labels once the components each connection of ts joins are merged, in order. */
  ghost function Replay(ts: seq<Connection>, comp: map<string, string>): (r: map<string, string>)
    requires EndpointsIn(ts, comp.Keys)
    ensures r.Keys == comp.Keys
  {
    if ts == [] then comp
    else
      assert ts[0] in ts;
      Replay(ts[1..], Relabel(comp, comp[ts[0].source], comp[ts[0].target]))
  }

  /** Each connection of ts joins two components the ones before it left apart: ts has no cycle. */
  ghost predicate Acyclic(ts: seq<Connection>, comp: map<string, string>)
    requires EndpointsIn(ts, comp.Keys)
  {
    ts != [] ==>
      assert ts[0] in ts;
      && comp[ts[0].source] != comp[ts[0].target]
      && Acyclic(ts[1..], Relabel(comp, comp[ts[0].source], comp[ts[0].target]))
  }

  /** A sub-multiset of connections runs between the same ids. */
  lemma SubEndpoints(ts: seq<Connection>, es: seq<Connection>, ids: set<string>)
    requires multiset(ts) <= multiset(es) && EndpointsIn(es, ids)
    ensures EndpointsIn(ts, ids)
  {
    forall c | c in ts
      ensures c.source in ids && c.target in ids
    {
      assert c in multiset(es);
    }
  }

  /** The scan takes connections from the list, each at most as often as the list holds it. */
  lemma {:induction false} KruskalTakesFromList(es: seq<Connection>, k: nat, comp: map<string, string>, nodes: seq<Node>)
    requires k <= |es| && EndpointsIn(es, comp.Keys) && |nodes| > 0 && Covers(comp, nodes)
    ensures multiset(Kruskal(es, k, comp, nodes)) <= multiset(es[k..])
    decreases |es| - k
  {
    if k < |es| {
      var e := es[k];
      var take := comp[e.source] != comp[e.target];
      var comp' := if take then Relabel(comp, comp[e.source], comp[e.target]) else comp;
      assert es[k..] == [e] + es[k + 1..];
      if !AllJoined(comp', nodes) {
        KruskalTakesFromList(es, k + 1, comp', nodes);
      }
    }
  }

  /** What the scan takes runs between labelled ids. */
  lemma KruskalEndpoints(es: seq<Connection>, k: nat, comp: map<string, string>, nodes: seq<Node>)
    requires k <= |es| && EndpointsIn(es, comp.Keys) && |nodes| > 0 && Covers(comp, nodes)
    ensures EndpointsIn(Kruskal(es, k, comp, nodes), comp.Keys)
  {
    KruskalTakesFromList(es, k, comp, nodes);
    assert EndpointsIn(es[k..], comp.Keys) by {
      forall c | c in es[k..]
        ensures c in es
      {
      }
    }
    SubEndpoints(Kruskal(es, k, comp, nodes), es[k..], comp.Keys);
  }

  /** Over a list sorted by cost, the scan takes connections in nondecreasing order of cost. */
  lemma {:induction false} KruskalInCostOrder(es: seq<Connection>, k: nat, comp: map<string, string>, nodes: seq<Node>)
    requires k <= |es| && EndpointsIn(es, comp.Keys) && |nodes| > 0 && Covers(comp, nodes)
    requires Sorted(es, CostBefore)
    ensures Sorted(Kruskal(es, k, comp, nodes), CostBefore)
    decreases |es| - k
  {
    if k < |es| {
      var e := es[k];
      var take := comp[e.source] != comp[e.target];
      var comp' := if take then Relabel(comp, comp[e.source], comp[e.target]) else comp;
      var rest := if AllJoined(comp', nodes) then [] else Kruskal(es, k + 1, comp', nodes);
      if !AllJoined(comp', nodes) {
        KruskalInCostOrder(es, k + 1, comp', nodes);
        KruskalTakesFromList(es, k + 1, comp', nodes);
      }
      assert Kruskal(es, k, comp, nodes) == (if take then [e] else []) + rest;
      SuffixCostsAtLeast(es, k, rest);
      SortedCons(take, e, rest);
    }
  }

  /** Over a list sorted by cost, what is drawn from past position k costs at least the k-th. */
  lemma SuffixCostsAtLeast(es: seq<Connection>, k: nat, rest: seq<Connection>)
    requires k < |es| && Sorted(es, CostBefore) && multiset(rest) <= multiset(es[k + 1..])
    ensures forall q :: 0 <= q < |rest| ==> es[k].cost <= rest[q].cost
  {
    forall q | 0 <= q < |rest|
      ensures es[k].cost <= rest[q].cost
    {
      assert rest[q] in multiset(es[k + 1..]);
      var j :| 0 <= j < |es[k + 1..]| && es[k + 1..][j] == rest[q];
      assert es[k + 1 + j] == rest[q];
    }
  }

  /** A connection no dearer than any of a sorted list, put in front, keeps it sorted. */
  lemma SortedCons(take: bool, e: Connection, rest: seq<Connection>)
    requires Sorted(rest, CostBefore) && forall q :: 0 <= q < |rest| ==> e.cost <= rest[q].cost
    ensures Sorted((if take then [e] else []) + rest, CostBefore)
  {
    var r := (if take then [e] else []) + rest;
    if take {
      forall a, b | 0 <= a < b < |r|
        ensures !CostBefore(r[b], r[a])
      {
        assert r[b] == rest[b - 1];
        if a > 0 {
          assert r[a] == rest[a - 1];
        }
      }
    } else {
      assert r == rest;
    }
  }

  /** The scan takes no connection that closes a cycle. */
  lemma {:induction false} KruskalAcyclic(es: seq<Connection>, k: nat, comp: map<string, string>, nodes: seq<Node>)
    requires k <= |es| && EndpointsIn(es, comp.Keys) && |nodes| > 0 && Covers(comp, nodes)
    ensures EndpointsIn(Kruskal(es, k, comp, nodes), comp.Keys) && Acyclic(Kruskal(es, k, comp, nodes), comp)
    decreases |es| - k
  {
    KruskalEndpoints(es, k, comp, nodes);
    if k < |es| {
      var e := es[k];
      var take := comp[e.source] != comp[e.target];
      var comp' := if take then Relabel(comp, comp[e.source], comp[e.target]) else comp;
      var rest := if AllJoined(comp', nodes) then [] else Kruskal(es, k + 1, comp', nodes);
      if !AllJoined(comp', nodes) {
        KruskalAcyclic(es, k + 1, comp', nodes);
      }
      var r := Kruskal(es, k, comp, nodes);
      if take {
        assert r[0] == e && r[1..] == rest;
      } else {
        assert r == rest;
      }
    }
  }

  /** Merging components keeps together what is already together. */
  lemma {:induction false} ReplayKeepsJoined(ts: seq<Connection>, comp: map<string, string>, x: string, y: string)
    requires EndpointsIn(ts, comp.Keys) && x in comp && y in comp && comp[x] == comp[y]
    ensures Replay(ts, comp)[x] == Replay(ts, comp)[y]
    decreases |ts|
  {
    if ts != [] {
      assert ts[0] in ts;
      ReplayKeepsJoined(ts[1..], Relabel(comp, comp[ts[0].source], comp[ts[0].target]), x, y);
    }
  }

  /** With every node in one component, every two labelled ids share a label. */
  lemma JoinedKeys(comp: map<string, string>, nodes: seq<Node>, x: string, y: string)
    requires |nodes| > 0 && comp.Keys == NodeIds(nodes) && Covers(comp, nodes) && AllJoined(comp, nodes)
    requires x in comp && y in comp
    ensures comp[x] == comp[y]
  {
    var i := NodeIdsHas(nodes, x);
    var j := NodeIdsHas(nodes, y);
  }

  /** Replaying the scan from position k is replaying the rest after one round. */
  lemma KruskalReplayStep(es: seq<Connection>, k: nat, comp: map<string, string>, nodes: seq<Node>)
    requires k < |es| && EndpointsIn(es, comp.Keys) && |nodes| > 0 && Covers(comp, nodes)
    ensures es[k].source in comp && es[k].target in comp
    ensures Covers(Merged(es[k], comp), nodes) && EndpointsIn(es, comp.Keys)
    ensures EndpointsIn(Rest(es, k, comp, nodes), comp.Keys)
    ensures Replay(Kruskal(es, k, comp, nodes), comp) == Replay(Rest(es, k, comp, nodes), Merged(es[k], comp))
  {
    KruskalStep(es, k, comp, nodes);
    var comp' := Merged(es[k], comp);
    var rest := Rest(es, k, comp, nodes);
    KruskalEndpoints(es, k + 1, comp', nodes);
    var r := Kruskal(es, k, comp, nodes);
    if Taken(es[k], comp) != [] {
      assert r[0] == es[k] && r[1..] == rest;
      assert comp' == Relabel(comp, comp[es[k].source], comp[es[k].target]);
      assert Replay(r, comp) == Replay(rest, comp');
    } else {
      assert r == rest && comp' == comp;
    }
  }

  /**
   * Replaying what the scan takes joins the endpoints of every connection from
   * position k on: the taken connections span every component the list connects.
   */
  lemma {:induction false} KruskalSpans(es: seq<Connection>, k: nat, comp: map<string, string>, nodes: seq<Node>)
    requires k <= |es| && EndpointsIn(es, comp.Keys) && |nodes| > 0 && Covers(comp, nodes)
    requires comp.Keys == NodeIds(nodes)
    ensures EndpointsIn(Kruskal(es, k, comp, nodes), comp.Keys)
    ensures forall q :: k <= q < |es| ==>
      Replay(Kruskal(es, k, comp, nodes), comp)[es[q].source] == Replay(Kruskal(es, k, comp, nodes), comp)[es[q].target]
    decreases |es| - k
  {
    KruskalEndpoints(es, k, comp, nodes);
    if k < |es| {
      var e := es[k];
      KruskalReplayStep(es, k, comp, nodes);
      var comp', rest := Merged(e, comp), Rest(es, k, comp, nodes);
      var replayed := Replay(rest, comp');
      forall q | k <= q < |es|
        ensures replayed[es[q].source] == replayed[es[q].target]
      {
        assert es[q] in es;
        if AllJoined(comp', nodes) {
          JoinedKeys(comp', nodes, es[q].source, es[q].target);
        } else if q == k {
          ReplayKeepsJoined(rest, comp', e.source, e.target);
        } else {
          KruskalSpans(es, k + 1, comp', nodes);
        }
      }
    }
  }

  /** Merging two different components leaves one label fewer. */
  lemma RelabelValues(c: map<string, string>, x: string, y: string)
    requires x in c && y in c && c[x] != c[y]
    ensures Relabel(c, c[x], c[y]).Values == c.Values - {c[x]}
  {
    var r := Relabel(c, c[x], c[y]);
    forall v | v in r.Values
      ensures v in c.Values - {c[x]}
    {
      var z :| z in r && r[z] == v;
    }
    forall v | v in c.Values - {c[x]}
      ensures v in r.Values
    {
      var z :| z in c && c[z] == v;
      assert r[z] == v;
    }
  }

  /** An acyclic list of connections has fewer members than there are components. */
  lemma {:induction false} AcyclicSize(ts: seq<Connection>, comp: map<string, string>)
    requires EndpointsIn(ts, comp.Keys) && Acyclic(ts, comp) && |comp| > 0
    ensures |ts| <= |comp.Values| - 1
    decreases |ts|
  {
    if ts == [] {
      var x :| x in comp;
      assert comp[x] in comp.Values;
    } else {
      var s, t := ts[0].source, ts[0].target;
      assert ts[0] in ts;
      RelabelValues(comp, s, t);
      assert comp[s] in comp.Values;
      AcyclicSize(ts[1..], Relabel(comp, comp[s], comp[t]));
    }
  }

  // ---------------------------------------------------------------------------
  // The optimal topology

  /** Sorting keeps the connections, so it keeps their endpoints. */
  lemma SortKeepsEndpoints(connections: seq<Connection>, ids: set<string>)
    requires EndpointsIn(connections, ids)
    ensures EndpointsIn(Sort(connections, CostBefore), ids)
    ensures multiset(Sort(connections, CostBefore)) == multiset(connections)
  {
    SortPermutes(connections, CostBefore);
    SubEndpoints(Sort(connections, CostBefore), connections, ids);
  }

  /** Every node starts in a component of its own. */
  lemma SingletonsCover(nodes: seq<Node>)
    ensures Covers(Singletons(nodes), nodes)
    ensures Singletons(nodes).Values == NodeIds(nodes)
  {
    forall i | 0 <= i < |nodes|
      ensures nodes[i].id in NodeIds(nodes)
    {
      assert nodes[i] in nodes;
    }
    var c := Singletons(nodes);
    forall v | v in NodeIds(nodes)
      ensures v in c.Values
    {
      assert c[v] == v;
    }
  }

  /** What the program computes: Kruskal's scan over the connections stably sorted by cost, every node on its own. */
  ghost function Optimal(nodes: seq<Node>, connections: seq<Connection>): seq<Connection>
    requires |nodes| > 0 && EndpointsIn(connections, NodeIds(nodes))
  {
    SortKeepsEndpoints(connections, NodeIds(nodes));
    SingletonsCover(nodes);
    Kruskal(Sort(connections, CostBefore), 0, Singletons(nodes), nodes)
  }

  /** The optimal topology is drawn from the connections, cheapest first. */
  lemma OptimalFromConnections(nodes: seq<Node>, connections: seq<Connection>)
    requires |nodes| > 0 && EndpointsIn(connections, NodeIds(nodes))
    ensures multiset(Optimal(nodes, connections)) <= multiset(connections)
    ensures Sorted(Optimal(nodes, connections), CostBefore)
  {
    var sorted := Sort(connections, CostBefore);
    SortKeepsEndpoints(connections, NodeIds(nodes));
    SingletonsCover(nodes);
    KruskalTakesFromList(sorted, 0, Singletons(nodes), nodes);
    assert sorted[0..] == sorted;
    CostBeforeIsStrictWeakOrder();
    SortSorts(connections, CostBefore);
    KruskalInCostOrder(sorted, 0, Singletons(nodes), nodes);
  }

  /**
   * The optimal topology is a spanning forest of the network: it closes no cycle,
   * and its links alone join the two ends of every connection.
   */
  lemma OptimalSpans(nodes: seq<Node>, connections: seq<Connection>)
    requires |nodes| > 0 && EndpointsIn(connections, NodeIds(nodes))
    ensures EndpointsIn(Optimal(nodes, connections), NodeIds(nodes))
    ensures Acyclic(Optimal(nodes, connections), Singletons(nodes))
    ensures forall c :: c in connections ==>
      Replay(Optimal(nodes, connections), Singletons(nodes))[c.source] == Replay(Optimal(nodes, connections), Singletons(nodes))[c.target]
  {
    var sorted := Sort(connections, CostBefore);
    SortKeepsEndpoints(connections, NodeIds(nodes));
    SingletonsCover(nodes);
    KruskalAcyclic(sorted, 0, Singletons(nodes), nodes);
    KruskalSpans(sorted, 0, Singletons(nodes), nodes);
    var replayed := Replay(Optimal(nodes, connections), Singletons(nodes));
    forall c | c in connections
      ensures replayed[c.source] == replayed[c.target]
    {
      assert c in multiset(sorted);
      var q :| 0 <= q < |sorted| && sorted[q] == c;
    }
  }

  /** The optimal topology has at most one link fewer than there are nodes. */
  lemma OptimalSize(nodes: seq<Node>, connections: seq<Connection>)
    requires |nodes| > 0 && EndpointsIn(connections, NodeIds(nodes))
    ensures |Optimal(nodes, connections)| <= |nodes| - 1
  {
    OptimalSpans(nodes, connections);
    SingletonsCover(nodes);
    assert nodes[0].id in Singletons(nodes);
    AcyclicSize(Optimal(nodes, connections), Singletons(nodes));
    NodeIdsSize(nodes);
  }

  // ---------------------------------------------------------------------------
  // The program

  /** One step of the scan: it takes Taken at position k and goes on from the Merged labels. */
  lemma KruskalStep(es: seq<Connection>, k: nat, comp: map<string, string>, nodes: seq<Node>)
    requires k < |es| && EndpointsIn(es, comp.Keys) && |nodes| > 0 && Covers(comp, nodes)
    ensures es[k].source in comp && es[k].target in comp
    ensures Covers(Merged(es[k], comp), nodes) && EndpointsIn(es, comp.Keys)
    ensures Kruskal(es, k, comp, nodes) == Taken(es[k], comp) + Rest(es, k, comp, nodes)
  {
    assert es[k] in es;
  }

  /** What the scan has chosen so far plus what Kruskal still chooses after one more round is unchanged. */
  lemma {:induction false} KruskalAdvance(es: seq<Connection>, k: nat, comp: map<string, string>, nodes: seq<Node>,
                                          mst: seq<Connection>, total: seq<Connection>)
    requires k < |es| && EndpointsIn(es, comp.Keys) && |nodes| > 0 && Covers(comp, nodes)
    requires mst + Kruskal(es, k, comp, nodes) == total
    ensures es[k].source in comp && es[k].target in comp
    ensures Covers(Merged(es[k], comp), nodes) && EndpointsIn(es, comp.Keys)
    ensures AllJoined(Merged(es[k], comp), nodes) ==> mst + Taken(es[k], comp) == total
    ensures !AllJoined(Merged(es[k], comp), nodes) ==>
      (mst + Taken(es[k], comp)) + Kruskal(es, k + 1, Merged(es[k], comp), nodes) == total
  {
    KruskalStep(es, k, comp, nodes);
    var taken, comp' := Taken(es[k], comp), Merged(es[k], comp);
    if !AllJoined(comp', nodes) {
      var rest := Kruskal(es, k + 1, comp', nodes);
      assert mst + (taken + rest) == (mst + taken) + rest;
    } else {
      assert taken + [] == taken;
    }
  }

  /** Whether every node's root is the first node's, as the scan checks after each connection. */
  method AllConnected(nodeSet: NodeSet, nodes: seq<Node>, ghost comp: map<string, string>) returns (allConnected: bool)
    requires nodeSet.Represents(comp) && |nodes| > 0 && Covers(comp, nodes)
    modifies nodeSet
    ensures nodeSet.Represents(comp)
    ensures allConnected == AllJoined(comp, nodes)
  {
    allConnected := true;
    var firstRoot := nodeSet.Find(nodes[0].id, comp);
    for i := 0 to |nodes|
      invariant nodeSet.Represents(comp)
      invariant forall j :: 0 <= j < i ==> comp[nodes[j].id] == firstRoot
    {
      var root := nodeSet.Find(nodes[i].id, comp);
      if root != firstRoot {
        allConnected := false;
        break;
      }
    }
  }

  /** The state of the scan before position k: the union-find holds comp and mst plus what is still to come makes total. */
  ghost predicate Scanning(nodeSet: NodeSet, sorted: seq<Connection>, k: nat, nodes: seq<Node>, comp: map<string, string>, mst: seq<Connection>, total: seq<Connection>)
    reads nodeSet
  {
    && k <= |sorted| && |nodes| > 0 && comp.Keys == NodeIds(nodes) && Covers(comp, nodes)
    && EndpointsIn(sorted, comp.Keys) && nodeSet.Represents(comp)
    && mst + Kruskal(sorted, k, comp, nodes) == total
  }

  /**
   * One round of the scan at position k: the connection is taken and its ends'
   * components united when their roots differ; then the scan is to stop if every
   * node has the first node's root.
   */
  method Consider(nodeSet: NodeSet, sorted: seq<Connection>, k: nat, nodes: seq<Node>, mst: seq<Connection>,
                  ghost comp: map<string, string>, ghost total: seq<Connection>)
    returns (stop: bool, mst': seq<Connection>, ghost comp': map<string, string>)
    requires k < |sorted| && Scanning(nodeSet, sorted, k, nodes, comp, mst, total)
    modifies nodeSet
    ensures stop ==> mst' == total
    ensures !stop ==> Scanning(nodeSet, sorted, k + 1, nodes, comp', mst', total)
  {
    var conn := sorted[k];
    KruskalAdvance(sorted, k, comp, nodes, mst, total);
    ghost var taken := Taken(conn, comp);
    comp' := Merged(conn, comp);
    var sourceRoot := nodeSet.Find(conn.source, comp);
    var targetRoot := nodeSet.Find(conn.target, comp);
    mst' := mst;
    if sourceRoot != targetRoot {
      mst' := mst + [conn];
      nodeSet.Union(conn.source, conn.target, comp);
    }
    assert mst' == mst + taken;
    stop := AllConnected(nodeSet, nodes, comp');
  }

  /** The scan over the sorted connections, from the first until every node is joined or the list ends. */
  method Scan(nodeSet: NodeSet, sorted: seq<Connection>, nodes: seq<Node>, ghost start: map<string, string>, ghost total: seq<Connection>)
    returns (mst: seq<Connection>)
    requires Scanning(nodeSet, sorted, 0, nodes, start, [], total)
    modifies nodeSet
    ensures mst == total
  {
    mst := [];
    ghost var comp := start;
    var k := 0;
    while k < |sorted|
      invariant Scanning(nodeSet, sorted, k, nodes, comp, mst, total)
    {
      var stop;
      stop, mst, comp := Consider(nodeSet, sorted, k, nodes, mst, comp, total);
      if stop {
        return;
      }
      k := k + 1;
    }
    assert mst + [] == mst;
  }

  /** A copy of the connections in an array, sorted in place by cost. */
  method SortByCost(connections: seq<Connection>) returns (sorted: seq<Connection>)
    ensures sorted == Sort(connections, CostBefore)
  {
    var a := new Connection[|connections|](i requires 0 <= i < |connections| => connections[i]);
    assert a[..] == connections;
    InsertionSort(a, CostBefore);
    sorted := a[..];
  }

  /**
   * findOptimalTopology: nothing to show with fewer than two nodes or no
   * connection; otherwise the connections Kruskal's scan takes from the list
   * sorted by cost, using the dictionary union-find.
   */
  method FindOptimalTopology(nodes: seq<Node>, connections: seq<Connection>) returns (res: Option<seq<Connection>>)
    requires EndpointsIn(connections, NodeIds(nodes))
    ensures res.None? <==> |nodes| < 2 || |connections| == 0
    ensures res.Some? ==> |nodes| > 0 && res.value == Optimal(nodes, connections)
  {
    if |nodes| < 2 || |connections| == 0 {
      return None;
    }
    var sorted := SortByCost(connections);
    SortKeepsEndpoints(connections, NodeIds(nodes));
    SingletonsCover(nodes);
    var nodeSet := new NodeSet(nodes);
    ghost var comp := Singletons(nodes);
    ghost var total := Optimal(nodes, connections);
    assert [] + Kruskal(sorted, 0, comp, nodes) == total;
    var mst := Scan(nodeSet, sorted, nodes, comp, total);
    return Some(mst);
  }
}
