/**
 * Cheapest way to connect a network of devices: every device either gets its
 * own communication module or is linked to another device. The program adds a
 * virtual hub node n whose edge to device i costs modules[i] and runs Kruskal's
 * algorithm over the device links and the hub edges, with a union-find structure
 * (path compression, union by rank) deciding whether an edge closes a cycle.
 */
module DeviceNetwork {
  import opened Wrappers
  import opened Sorting

  // ---------------------------------------------------------------------------
  // The union-find forest as values

  /**
   * A parent array and a rank array form a forest: every parent is an index, and
   * a non-root's rank is below its parent's. `bound` caps every rank, which
   * gives the walk to the root a measure.
   */
  ghost predicate Forest(p: seq<int>, rk: seq<int>, bound: int)
  {
    && |p| == |rk|
    && forall x :: 0 <= x < |p| ==> 0 <= p[x] < |p| && 0 <= rk[x] <= bound && (p[x] != x ==> rk[x] < rk[p[x]])
  }

  /** The root reached from x by following parents: a fixed point of p, of rank at least x's. */
  ghost function RootOf(p: seq<int>, rk: seq<int>, bound: int, x: int): (r: int)
    requires Forest(p, rk, bound) && 0 <= x < |p|
    ensures 0 <= r < |p| && p[r] == r
    ensures rk[x] <= rk[r] && (p[x] != x ==> rk[x] < rk[r])
    ensures p[x] == x ==> r == x
    decreases bound - rk[x]
  {
    if p[x] == x then x else RootOf(p, rk, bound, p[x])
  }

  /** The root of every element. */
  ghost function RootsOf(p: seq<int>, rk: seq<int>, bound: int): (roots: seq<int>)
    requires Forest(p, rk, bound)
    ensures |roots| == |p|
  {
    seq(|p|, x requires 0 <= x < |p| => RootOf(p, rk, bound, x))
  }

  /** Every label `from` becomes `to`; the other labels stay. */
  function Relabel(c: seq<int>, from: int, to: int): (r: seq<int>)
    ensures |r| == |c|
    ensures forall z :: 0 <= z < |c| ==> r[z] == (if c[z] == from then to else c[z])
  {
    seq(|c|, z requires 0 <= z < |c| => if c[z] == from then to else c[z])
  }

  lemma {:induction false} CompressKeepsRoot(p: seq<int>, rk: seq<int>, bound: int, x: int, y: int)
    requires Forest(p, rk, bound) && 0 <= x < |p| && 0 <= y < |p|
    requires Forest(p[x := RootOf(p, rk, bound, x)], rk, bound)
    ensures RootOf(p[x := RootOf(p, rk, bound, x)], rk, bound, y) == RootOf(p, rk, bound, y)
    decreases bound - rk[y]
  {
    var p' := p[x := RootOf(p, rk, bound, x)];
    if y != x && p[y] != y {
      CompressKeepsRoot(p, rk, bound, x, p[y]);
    }
  }

  /** Path compression: pointing x straight at its root keeps the forest and every element's root. */
  lemma CompressKeepsRoots(p: seq<int>, rk: seq<int>, bound: int, x: int)
    requires Forest(p, rk, bound) && 0 <= x < |p|
    ensures Forest(p[x := RootOf(p, rk, bound, x)], rk, bound)
    ensures RootsOf(p[x := RootOf(p, rk, bound, x)], rk, bound) == RootsOf(p, rk, bound)
  {
    var p' := p[x := RootOf(p, rk, bound, x)];
    forall y | 0 <= y < |p|
      ensures RootOf(p', rk, bound, y) == RootOf(p, rk, bound, y)
    {
      CompressKeepsRoot(p, rk, bound, x, y);
    }
  }

  lemma {:induction false} RootIgnoresRank(p: seq<int>, rk1: seq<int>, b1: int, rk2: seq<int>, b2: int, y: int)
    requires Forest(p, rk1, b1) && Forest(p, rk2, b2) && 0 <= y < |p|
    ensures RootOf(p, rk1, b1, y) == RootOf(p, rk2, b2, y)
    decreases b1 - rk1[y]
  {
    if p[y] != y {
      RootIgnoresRank(p, rk1, b1, rk2, b2, p[y]);
    }
  }

  lemma {:induction false} LinkRoot(p: seq<int>, rk: seq<int>, bound: int, a: int, b: int, y: int)
    requires Forest(p, rk, bound) && 0 <= a < |p| && 0 <= b < |p| && a != b && p[a] == a && p[b] == b
    requires Forest(p[b := a], rk, bound) && 0 <= y < |p|
    ensures RootOf(p[b := a], rk, bound, y) == (if RootOf(p, rk, bound, y) == b then a else RootOf(p, rk, bound, y))
    decreases bound - rk[y]
  {
    if y != b && p[y] != y {
      LinkRoot(p, rk, bound, a, b, p[y]);
    }
  }

  /** Hanging root b under root a of greater rank sends b's elements to a and keeps the forest. */
  lemma LinkKeepsForest(p: seq<int>, rk: seq<int>, bound: int, a: int, b: int)
    requires Forest(p, rk, bound) && 0 <= a < |p| && 0 <= b < |p| && a != b && p[a] == a && p[b] == b
    requires rk[b] < rk[a]
    ensures Forest(p[b := a], rk, bound)
    ensures RootsOf(p[b := a], rk, bound) == Relabel(RootsOf(p, rk, bound), b, a)
  {
    forall y | 0 <= y < |p|
      ensures RootOf(p[b := a], rk, bound, y) == (if RootOf(p, rk, bound, y) == b then a else RootOf(p, rk, bound, y))
    {
      LinkRoot(p, rk, bound, a, b, y);
    }
  }

  /** Two roots of equal rank: a's rank grows by one and b goes under a. */
  lemma LinkEqualKeepsForest(p: seq<int>, rk: seq<int>, bound: int, a: int, b: int)
    requires Forest(p, rk, bound) && 0 <= a < |p| && 0 <= b < |p| && a != b && p[a] == a && p[b] == b
    requires rk[b] == rk[a]
    ensures Forest(p[b := a], rk[a := rk[a] + 1], if bound > rk[a] then bound else rk[a] + 1)
    ensures RootsOf(p[b := a], rk[a := rk[a] + 1], if bound > rk[a] then bound else rk[a] + 1)
         == Relabel(RootsOf(p, rk, bound), b, a)
  {
    var rk' := rk[a := rk[a] + 1];
    var bound' := if bound > rk[a] then bound else rk[a] + 1;
    assert Forest(p, rk', bound');
    forall y | 0 <= y < |p|
      ensures RootOf(p, rk', bound', y) == RootOf(p, rk, bound, y)
    {
      RootIgnoresRank(p, rk', bound', rk, bound, y);
    }
    LinkKeepsForest(p, rk', bound', a, b);
  }

  // ---------------------------------------------------------------------------
  // The union-find class

  /** Disjoint sets over 0..n-1 with path compression and union by rank. */
  class UnionFind {
    const parent: array<int>
    const rank: array<int>
    /** A cap on every rank: the measure of the walk to a root. */
    ghost var bound: int

    ghost predicate Valid()
      reads this, parent, rank
    {
      parent != rank && Forest(parent[..], rank[..], bound)
    }

    /** The representative of x's set. */
    ghost function Root(x: int): int
      reads this, parent, rank
      requires Valid() && 0 <= x < parent.Length
    {
      RootOf(parent[..], rank[..], bound, x)
    }

    /** The representative of every element: the partition the structure stands for. */
    ghost function Roots(): seq<int>
      reads this, parent, rank
      requires Valid()
    {
      RootsOf(parent[..], rank[..], bound)
    }

    /** Every element starts as its own root with rank 0. */
    constructor (n: nat)
      ensures Valid() && fresh(parent) && fresh(rank)
      ensures parent[..] == seq(n, i => i) && rank[..] == seq(n, _ => 0)
      ensures Roots() == seq(n, i => i)
    {
      parent := new int[n](i => i);
      rank := new int[n](_ => 0);
      bound := 0;
      new;
      forall i | 0 <= i < n
        ensures RootOf(parent[..], rank[..], bound, i) == i
      {
      }
    }

    /** The root of x's set; every node on the way now points straight at it. */
    method Find(x: int) returns (r: int)
      requires Valid() && 0 <= x < parent.Length
      modifies parent
      ensures Valid() && rank[..] == old(rank[..])
      ensures r == old(Root(x)) && parent[x] == r && parent[r] == r
      ensures Roots() == old(Roots())
      decreases bound - rank[x]
    {
      if parent[x] != x {
        var root := Find(parent[x]);
        assert root == RootOf(parent[..], rank[..], bound, x) by {
          assert RootOf(parent[..], rank[..], bound, x) == Roots()[x];
        }
        CompressKeepsRoots(parent[..], rank[..], bound, x);
        parent[x] := root;
      }
      r := parent[x];
    }

    /**
     * Hang one of two different roots under the other: the lower-ranked one goes under
     * the higher-ranked one, and on equal ranks b goes under a, whose rank grows by one.
     */
    method Link(a: int, b: int)
      requires Valid() && 0 <= a < parent.Length && 0 <= b < parent.Length && a != b
      requires parent[a] == a && parent[b] == b
      modifies this, parent, rank
      ensures Valid()
      ensures old(rank[a]) > old(rank[b]) ==> Roots() == Relabel(old(Roots()), b, a) && rank[..] == old(rank[..])
      ensures old(rank[a]) < old(rank[b]) ==> Roots() == Relabel(old(Roots()), a, b) && rank[..] == old(rank[..])
      ensures old(rank[a]) == old(rank[b]) ==>
        Roots() == Relabel(old(Roots()), b, a) && rank[..] == old(rank[..])[a := old(rank[a]) + 1]
    {
      if rank[a] > rank[b] {
        HangUnder(b, a);
      } else if rank[a] < rank[b] {
        HangUnder(a, b);
      } else {
        HangUnderEqual(b, a);
      }
    }

    /** Root `child` of lower rank goes under root `root`; its elements now have root `root`. */
    method HangUnder(child: int, root: int)
      requires Valid() && 0 <= child < parent.Length && 0 <= root < parent.Length && child != root
      requires parent[child] == child && parent[root] == root && rank[child] < rank[root]
      modifies parent
      ensures Valid() && Roots() == Relabel(old(Roots()), child, root)
    {
      ghost var p := parent[..];
      LinkKeepsForest(p, rank[..], bound, root, child);
      parent[child] := root;
      assert parent[..] == p[child := root];
    }

    /** Root `child` goes under root `root` of equal rank, whose rank grows by one. */
    method HangUnderEqual(child: int, root: int)
      requires Valid() && 0 <= child < parent.Length && 0 <= root < parent.Length && child != root
      requires parent[child] == child && parent[root] == root && rank[child] == rank[root]
      modifies this, parent, rank
      ensures Valid()
      ensures Roots() == Relabel(old(Roots()), child, root)
      ensures rank[..] == old(rank[..])[root := old(rank[root]) + 1]
    {
      ghost var p, rk, bd := parent[..], rank[..], bound;
      LinkEqualKeepsForest(p, rk, bd, root, child);
      parent[child] := root;
      bound := if bound > rank[root] then bound else rank[root] + 1;
      rank[root] := rank[root] + 1;
      assert parent[..] == p[child := root];
      assert rank[..] == rk[root := rk[root] + 1];
      assert bound == if bd > rk[root] then bd else rk[root] + 1;
    }

    /**
     * Merge the sets of x and y. False, with nothing changed but path compression,
     * when they already share a root; otherwise the root of lower rank goes under
     * the other, and on equal ranks y's root goes under x's, whose rank grows by one.
     */
    method Union(x: int, y: int) returns (merged: bool)
      requires Valid() && 0 <= x < parent.Length && 0 <= y < parent.Length
      modifies this, parent, rank
      ensures Valid()
      ensures merged <==> old(Root(x)) != old(Root(y))
      ensures !merged ==> Roots() == old(Roots()) && rank[..] == old(rank[..])
      ensures merged && old(rank[Root(x)]) > old(rank[Root(y)]) ==>
        Roots() == Relabel(old(Roots()), old(Root(y)), old(Root(x))) && rank[..] == old(rank[..])
      ensures merged && old(rank[Root(x)]) < old(rank[Root(y)]) ==>
        Roots() == Relabel(old(Roots()), old(Root(x)), old(Root(y))) && rank[..] == old(rank[..])
      ensures merged && old(rank[Root(x)]) == old(rank[Root(y)]) ==>
        Roots() == Relabel(old(Roots()), old(Root(y)), old(Root(x)))
        && rank[..] == old(rank[..])[old(Root(x)) := old(rank[Root(x)]) + 1]
    {
      ghost var roots := Roots();
      var rootX := Find(x);
      var rootY := Find(y);
      assert rootX == roots[x] && rootY == roots[y];
      assert parent[rootX] == rootX by {
        assert RootOf(parent[..], rank[..], bound, rootX) == Roots()[rootX] == roots[rootX] == rootX;
      }
      if rootX == rootY {
        return false;
      }
      Link(rootX, rootY);
      return true;
    }
  }

  // ---------------------------------------------------------------------------
  // Kruskal's algorithm with a virtual hub

  /** A link as the input gives it: 1-based device numbers and a cost. */
  datatype Connection = Connection(device1: int, device2: int, cost: int)

  /** An edge between 0-based nodes; node n is the hub. */
  datatype Edge = Edge(u: int, v: int, cost: int)

  /** The comparison the edge list is sorted by: cost alone. */
  function Cheaper(e: Edge, f: Edge): bool
  {
    e.cost < f.cost
  }

  lemma CheaperIsStrictWeakOrder()
    ensures StrictWeakOrder(Cheaper)
  {
  }

  /** Every connection names devices 1..n, or n + 1, which lands on the hub node. */
  predicate DevicesInRange(n: nat, connections: seq<Connection>)
  {
    forall j :: 0 <= j < |connections| ==>
      1 <= connections[j].device1 <= n + 1 && 1 <= connections[j].device2 <= n + 1
  }

  /** The converted connections followed by one hub edge per device, in the program's order. */
  function Edges(n: nat, modules: seq<int>, connections: seq<Connection>): (es: seq<Edge>)
    requires |modules| >= n
    ensures |es| == |connections| + n
  {
    seq(|connections|, j requires 0 <= j < |connections| =>
      Edge(connections[j].device1 - 1, connections[j].device2 - 1, connections[j].cost))
    + seq(n, i requires 0 <= i < n => Edge(n, i, modules[i]))
  }

  /** Edge e joins two nodes among 0..m-1, the indices the union-find has. */
  predicate InRange(e: Edge, m: nat)
  {
    0 <= e.u < m && 0 <= e.v < m
  }

  /** Every edge joins nodes among 0..m-1. */
  predicate EndpointsBelow(es: seq<Edge>, m: nat)
  {
    forall q :: 0 <= q < |es| ==> 0 <= es[q].u < m && 0 <= es[q].v < m
  }

  /** Some edge of es from position k on joins the hub n to node i. */
  ghost predicate HubLinked(es: seq<Edge>, k: nat, n: nat, i: int)
  {
    exists q :: k <= q < |es| && es[q].u == n && es[q].v == i
  }

  /** Every device 0..n-1 has an edge to the hub n. */
  ghost predicate HubEdges(es: seq<Edge>, n: nat)
  {
    forall i :: 0 <= i < n ==> HubLinked(es, 0, n, i)
  }

  lemma EdgesShape(n: nat, modules: seq<int>, connections: seq<Connection>)
    requires |modules| >= n && DevicesInRange(n, connections)
    ensures EndpointsBelow(Edges(n, modules, connections), n + 1)
    ensures HubEdges(Edges(n, modules, connections), n)
  {
    var es := Edges(n, modules, connections);
    forall i | 0 <= i < n
      ensures HubLinked(es, 0, n, i)
    {
      assert es[|connections| + i] == Edge(n, i, modules[i]);
    }
  }

  /** Sorting keeps the edges, so it keeps their endpoints in range and the hub edges. */
  lemma SortKeepsShape(es: seq<Edge>, m: nat, n: nat)
    requires EndpointsBelow(es, m) && HubEdges(es, n)
    ensures EndpointsBelow(Sort(es, Cheaper), m) && HubEdges(Sort(es, Cheaper), n)
  {
    var t := Sort(es, Cheaper);
    SortPermutes(es, Cheaper);
    forall q | 0 <= q < |t|
      ensures 0 <= t[q].u < m && 0 <= t[q].v < m
    {
      assert t[q] in multiset(es);
      var r :| 0 <= r < |es| && es[r] == t[q];
    }
    forall i | 0 <= i < n
      ensures HubLinked(t, 0, n, i)
    {
      assert HubLinked(es, 0, n, i);
      var r :| 0 <= r < |es| && es[r].u == n && es[r].v == i;
      assert es[r] in multiset(t);
      var q :| 0 <= q < |t| && t[q] == es[r];
    }
  }

  /**
   * Kruskal's scan over es from position k: an edge whose endpoints carry different
   * component labels is accepted and the two components merge; the scan stops right
   * after the n-th acceptance, and at an edge naming a node the union-find does not
   * have (see Fails). `used` counts the edges accepted so far.
   */
  function Kruskal(es: seq<Edge>, k: nat, comp: seq<int>, used: nat, n: nat): (accepted: seq<Edge>)
    requires k <= |es|
    decreases |es| - k
  {
    if k == |es| || !InRange(es[k], |comp|) then []
    else
      var e := es[k];
      if comp[e.u] != comp[e.v] then
        [e] + (if used + 1 == n then [] else Kruskal(es, k + 1, Relabel(comp, comp[e.v], comp[e.u]), used + 1, n))
      else
        Kruskal(es, k + 1, comp, used, n)
  }

  /**
   * Whether the scan from position k reaches an edge naming a node outside 0..|comp|-1
   * before its n-th acceptance: the program's union then indexes past its arrays.
   */
  function Fails(es: seq<Edge>, k: nat, comp: seq<int>, used: nat, n: nat): bool
    requires k <= |es|
    decreases |es| - k
  {
    if k == |es| then false
    else if !InRange(es[k], |comp|) then true
    else
      var e := es[k];
      if comp[e.u] != comp[e.v] then
        used + 1 != n && Fails(es, k + 1, Relabel(comp, comp[e.v], comp[e.u]), used + 1, n)
      else
        Fails(es, k + 1, comp, used, n)
  }

  /** The edges the program accepts: Kruskal over the stably sorted edge list, every node on its own. */
  function Accepted(n: nat, modules: seq<int>, connections: seq<Connection>): seq<Edge>
    requires |modules| >= n
  {
    Kruskal(Sort(Edges(n, modules, connections), Cheaper), 0, seq(n + 1, i => i), 0, n)
  }

  /** Whether the program's scan reaches a connection naming a device that does not exist. */
  function ScanFails(n: nat, modules: seq<int>, connections: seq<Connection>): bool
    requires |modules| >= n
  {
    Fails(Sort(Edges(n, modules, connections), Cheaper), 0, seq(n + 1, i => i), 0, n)
  }

  /** A scan over edges that all name existing nodes never fails. */
  lemma {:induction false} InRangeNeverFails(es: seq<Edge>, k: nat, comp: seq<int>, used: nat, n: nat)
    requires k <= |es| && EndpointsBelow(es, |comp|)
    ensures !Fails(es, k, comp, used, n)
    decreases |es| - k
  {
    if k < |es| {
      var e := es[k];
      if comp[e.u] != comp[e.v] {
        InRangeNeverFails(es, k + 1, Relabel(comp, comp[e.v], comp[e.u]), used + 1, n);
      } else {
        InRangeNeverFails(es, k + 1, comp, used, n);
      }
    }
  }

  /** Connections that name devices 1..n + 1 never make the program fail. */
  lemma DevicesInRangeNeverFail(n: nat, modules: seq<int>, connections: seq<Connection>)
    requires |modules| >= n && DevicesInRange(n, connections)
    ensures !ScanFails(n, modules, connections)
  {
    EdgesShape(n, modules, connections);
    SortKeepsShape(Edges(n, modules, connections), n + 1, n);
    InRangeNeverFails(Sort(Edges(n, modules, connections), Cheaper), 0, seq(n + 1, i => i), 0, n);
  }

  function CostSum(es: seq<Edge>): int
  {
    if es == [] then 0 else es[0].cost + CostSum(es[1..])
  }

  // ---------------------------------------------------------------------------
  // What Kruskal's scan guarantees

  /** The distinct component labels. */
  ghost function Labels(c: seq<int>): set<int>
  {
    set z | 0 <= z < |c| :: c[z]
  }

  /** Merging two different labels leaves one label fewer. */
  lemma RelabelLabels(c: seq<int>, x: int, y: int)
    requires 0 <= x < |c| && 0 <= y < |c| && c[x] != c[y]
    ensures Labels(Relabel(c, c[y], c[x])) == Labels(c) - {c[y]}
    ensures |Labels(Relabel(c, c[y], c[x]))| == |Labels(c)| - 1
  {
    var r := Relabel(c, c[y], c[x]);
    assert r[x] == c[x];
    forall l | l in Labels(c) - {c[y]}
      ensures l in Labels(r)
    {
      var z :| 0 <= z < |c| && c[z] == l;
      assert r[z] == l;
    }
  }

  /** Every node on its own: as many labels as nodes. */
  lemma {:induction false} SingletonLabels(m: nat)
    ensures |Labels(seq(m, i => i))| == m
  {
    if m > 0 {
      SingletonLabels(m - 1);
      var c, c' := seq(m, i => i), seq(m - 1, i => i);
      assert Labels(c) == Labels(c') + {m - 1} by {
        assert c[m - 1] == m - 1;
        forall z | 0 <= z < m - 1
          ensures c[z] in Labels(c')
        {
          assert c'[z] == z;
        }
        forall l | l in Labels(c')
          ensures l in Labels(c)
        {
          var z :| 0 <= z < m - 1 && c'[z] == l;
          assert c[z] == l;
        }
      }
    }
  }

  /** Every node in the hub's component: a single label. */
  lemma OneLabel(comp: seq<int>, n: nat)
    requires |comp| == n + 1 && forall i :: 0 <= i < n ==> comp[i] == comp[n]
    ensures |Labels(comp)| == 1
  {
    assert Labels(comp) == {comp[n]};
  }

  /**
   * After the scan passes position k, a device is still linked to the hub: by a later
   * edge, or because it now shares the hub's label.
   */
  lemma HubLinkedStep(es: seq<Edge>, k: nat, comp: seq<int>, comp': seq<int>, n: nat)
    requires k < |es| && |comp| == n + 1 && |comp'| == n + 1 && EndpointsBelow(es, n + 1)
    requires Spannable(es, k, comp, n)
    requires comp'[es[k].u] == comp'[es[k].v]
    requires forall i :: 0 <= i < n && comp[i] == comp[n] ==> comp'[i] == comp'[n]
    ensures Spannable(es, k + 1, comp', n)
  {
    forall i | 0 <= i < n && comp'[i] != comp'[n]
      ensures HubLinked(es, k + 1, n, i)
    {
      var q :| k <= q < |es| && es[q].u == n && es[q].v == i;
    }
  }

  /** The scan accepts an edge between two components. */
  lemma KruskalAccepts(es: seq<Edge>, k: nat, comp: seq<int>, used: nat, n: nat)
    requires k < |es| && InRange(es[k], |comp|) && comp[es[k].u] != comp[es[k].v]
    ensures Kruskal(es, k, comp, used, n)
      == [es[k]] + (if used + 1 == n then [] else Kruskal(es, k + 1, Relabel(comp, comp[es[k].v], comp[es[k].u]), used + 1, n))
    ensures |Kruskal(es, k, comp, used, n)|
      == 1 + (if used + 1 == n then 0 else |Kruskal(es, k + 1, Relabel(comp, comp[es[k].v], comp[es[k].u]), used + 1, n)|)
  {
  }

  /** The scan skips an edge inside one component. */
  lemma KruskalSkips(es: seq<Edge>, k: nat, comp: seq<int>, used: nat, n: nat)
    requires k < |es| && InRange(es[k], |comp|) && comp[es[k].u] == comp[es[k].v]
    ensures Kruskal(es, k, comp, used, n) == Kruskal(es, k + 1, comp, used, n)
  {
  }

  /** Every device is in the hub's component or linked to the hub by an edge from position k on. */
  ghost predicate Spannable(es: seq<Edge>, k: nat, comp: seq<int>, n: nat)
    requires |comp| == n + 1
  {
    forall i :: 0 <= i < n ==> comp[i] == comp[n] || HubLinked(es, k, n, i)
  }

  /**
   * With every device linked to the hub by some edge still to come, or already in the
   * hub's component, the scan accepts edges until exactly n have been accepted.
   */
  lemma {:induction false} KruskalSpans(es: seq<Edge>, k: nat, comp: seq<int>, used: nat, n: nat)
    requires |comp| == n + 1 && k <= |es| && EndpointsBelow(es, n + 1) && used < n
    requires |Labels(comp)| == n + 1 - used && Spannable(es, k, comp, n)
    ensures |Kruskal(es, k, comp, used, n)| == n - used
    decreases |es| - k, 2
  {
    if k == |es| {
      OneLabel(comp, n);
      assert false;
    } else if comp[es[k].u] != comp[es[k].v] {
      SpansAccepting(es, k, comp, used, n);
    } else {
      SpansSkipping(es, k, comp, used, n);
    }
  }

  /** KruskalSpans when the edge at k joins two components. */
  lemma {:induction false} SpansAccepting(es: seq<Edge>, k: nat, comp: seq<int>, used: nat, n: nat)
    requires |comp| == n + 1 && k < |es| && EndpointsBelow(es, n + 1) && used < n
    requires |Labels(comp)| == n + 1 - used && Spannable(es, k, comp, n)
    requires comp[es[k].u] != comp[es[k].v]
    ensures |Kruskal(es, k, comp, used, n)| == n - used
    decreases |es| - k, 1
  {
    KruskalAccepts(es, k, comp, used, n);
    var e := es[k];
    var comp' := Relabel(comp, comp[e.v], comp[e.u]);
    if used + 1 < n {
      HubLinkedStep(es, k, comp, comp', n);
      RelabelLabels(comp, e.u, e.v);
      KruskalSpans(es, k + 1, comp', used + 1, n);
      assert |Kruskal(es, k + 1, comp', used + 1, n)| == n - used - 1;
    }
  }

  /** KruskalSpans when the edge at k lies inside one component. */
  lemma {:induction false} SpansSkipping(es: seq<Edge>, k: nat, comp: seq<int>, used: nat, n: nat)
    requires |comp| == n + 1 && k < |es| && EndpointsBelow(es, n + 1) && used < n
    requires |Labels(comp)| == n + 1 - used && Spannable(es, k, comp, n)
    requires comp[es[k].u] == comp[es[k].v]
    ensures |Kruskal(es, k, comp, used, n)| == n - used
    decreases |es| - k, 1
  {
    HubLinkedStep(es, k, comp, comp, n);
    KruskalSpans(es, k + 1, comp, used, n);
    KruskalSkips(es, k, comp, used, n);
  }

  /** Over a cost-sorted list, the accepted edges come from the list, in nondecreasing cost order. */
  lemma {:induction false} KruskalKeepsOrder(es: seq<Edge>, k: nat, comp: seq<int>, used: nat, n: nat)
    requires k <= |es| && EndpointsBelow(es, |comp|) && Sorted(es, Cheaper)
    ensures forall p :: 0 <= p < |Kruskal(es, k, comp, used, n)| ==> Kruskal(es, k, comp, used, n)[p] in es[k..]
    ensures Sorted(Kruskal(es, k, comp, used, n), Cheaper)
    decreases |es| - k
  {
    if k < |es| {
      var e := es[k];
      var comp' := if comp[e.u] != comp[e.v] then Relabel(comp, comp[e.v], comp[e.u]) else comp;
      var used' := if comp[e.u] != comp[e.v] then used + 1 else used;
      KruskalKeepsOrder(es, k + 1, comp', used', n);
      var tail := Kruskal(es, k + 1, comp', used', n);
      forall p | 0 <= p < |tail|
        ensures tail[p] in es[k..] && e.cost <= tail[p].cost
      {
        var q :| 0 <= q < |es[k + 1..]| && es[k + 1..][q] == tail[p];
        assert es[k..][q + 1] == tail[p];
      }
    }
  }

  /** A single node never has an edge between two components. */
  lemma {:induction false} KruskalOneNode(es: seq<Edge>, k: nat, comp: seq<int>, used: nat, n: nat)
    requires |comp| == 1 && k <= |es| && EndpointsBelow(es, 1)
    ensures Kruskal(es, k, comp, used, n) == []
    decreases |es| - k
  {
    if k < |es| {
      KruskalOneNode(es, k + 1, comp, used, n);
    }
  }

  /** n edges are accepted: one per device, which with the hub makes n + 1 nodes. */
  lemma AcceptedCount(n: nat, modules: seq<int>, connections: seq<Connection>)
    requires |modules| >= n && DevicesInRange(n, connections)
    ensures |Accepted(n, modules, connections)| == n
  {
    var es := Edges(n, modules, connections);
    EdgesShape(n, modules, connections);
    SortKeepsShape(es, n + 1, n);
    if n > 0 {
      SingletonLabels(n + 1);
      KruskalSpans(Sort(es, Cheaper), 0, seq(n + 1, i => i), 0, n);
    } else {
      KruskalOneNode(Sort(es, Cheaper), 0, seq(n + 1, i => i), 0, n);
    }
  }

  /** The accepted edges are edges of the network, taken in nondecreasing order of cost. */
  lemma AcceptedInCostOrder(n: nat, modules: seq<int>, connections: seq<Connection>)
    requires |modules| >= n && DevicesInRange(n, connections)
    ensures forall p :: 0 <= p < |Accepted(n, modules, connections)| ==>
      Accepted(n, modules, connections)[p] in Edges(n, modules, connections)
    ensures Sorted(Accepted(n, modules, connections), Cheaper)
  {
    var es := Edges(n, modules, connections);
    var sorted := Sort(es, Cheaper);
    EdgesShape(n, modules, connections);
    SortKeepsShape(es, n + 1, n);
    CheaperIsStrictWeakOrder();
    SortSorts(es, Cheaper);
    SortPermutes(es, Cheaper);
    KruskalKeepsOrder(sorted, 0, seq(n + 1, i => i), 0, n);
    var acc := Accepted(n, modules, connections);
    assert sorted[0..] == sorted;
    forall p | 0 <= p < |acc|
      ensures acc[p] in es
    {
      assert acc[p] in multiset(sorted);
    }
  }

  // ---------------------------------------------------------------------------
  // The program

  /** Two labellings describe the same partition. */
  ghost predicate SamePartition(r: seq<int>, c: seq<int>)
  {
    |r| == |c| && forall a, b :: 0 <= a < |r| && 0 <= b < |r| ==> (r[a] == r[b] <==> c[a] == c[b])
  }

  /**
   * One union seen through the labels: the union-find merges exactly when the labels of
   * x and y differ, and merging their classes keeps the two labellings alike.
   */
  lemma UnionStep(before: seq<int>, after: seq<int>, comp: seq<int>, x: int, y: int, merged: bool)
    requires SamePartition(before, comp) && 0 <= x < |before| && 0 <= y < |before|
    requires merged <==> before[x] != before[y]
    requires !merged ==> after == before
    requires merged ==> after == Relabel(before, before[y], before[x]) || after == Relabel(before, before[x], before[y])
    ensures merged <==> comp[x] != comp[y]
    ensures SamePartition(after, if merged then Relabel(comp, comp[y], comp[x]) else comp)
  {
  }

  /**
   * The edge list as the program builds it: each connection made 0-based, then one
   * hub edge per device. Fewer module costs than devices make the second loop index
   * past the array.
   */
  method BuildEdges(n: nat, modules: seq<int>, connections: seq<Connection>) returns (res: Result<seq<Edge>>)
    ensures res.Failure? <==> |modules| < n
    ensures res.Failure? ==> res.error == IndexOutOfBounds
    ensures res.Success? ==> |modules| >= n && res.value == Edges(n, modules, connections)
  {
    var edges: seq<Edge> := [];
    for j := 0 to |connections|
      invariant |edges| == j
      invariant forall q :: 0 <= q < j ==>
        edges[q] == Edge(connections[q].device1 - 1, connections[q].device2 - 1, connections[q].cost)
    {
      var conn := connections[j];
      edges := edges + [Edge(conn.device1 - 1, conn.device2 - 1, conn.cost)];
    }
    for i := 0 to n
      invariant |edges| == |connections| + i && i <= |modules|
      invariant forall q :: 0 <= q < |connections| ==>
        edges[q] == Edge(connections[q].device1 - 1, connections[q].device2 - 1, connections[q].cost)
      invariant forall t :: 0 <= t < i ==> edges[|connections| + t] == Edge(n, t, modules[t])
    {
      if i >= |modules| {
        return Failure(IndexOutOfBounds);
      }
      edges := edges + [Edge(n, i, modules[i])];
    }
    return Success(edges);
  }

  /** The cost of what the scan takes from position k, summed as the scan goes. */
  function CostFrom(es: seq<Edge>, k: nat, comp: seq<int>, used: nat, n: nat): int
    requires k <= |es|
    decreases |es| - k
  {
    if k == |es| || !InRange(es[k], |comp|) then 0
    else
      var e := es[k];
      if comp[e.u] != comp[e.v] then
        e.cost + (if used + 1 == n then 0 else CostFrom(es, k + 1, Relabel(comp, comp[e.v], comp[e.u]), used + 1, n))
      else
        CostFrom(es, k + 1, comp, used, n)
  }

  /** Summing as the scan goes gives the cost of the edges it accepts. */
  lemma {:induction false} CostFromIsCostSum(es: seq<Edge>, k: nat, comp: seq<int>, used: nat, n: nat)
    requires k <= |es|
    ensures CostFrom(es, k, comp, used, n) == CostSum(Kruskal(es, k, comp, used, n))
    decreases |es| - k
  {
    if k < |es| && InRange(es[k], |comp|) {
      var e := es[k];
      if comp[e.u] != comp[e.v] {
        var comp' := Relabel(comp, comp[e.v], comp[e.u]);
        KruskalAccepts(es, k, comp, used, n);
        var r := Kruskal(es, k, comp, used, n);
        if used + 1 == n {
          assert r[1..] == [];
        } else {
          CostFromIsCostSum(es, k + 1, comp', used + 1, n);
          assert r[1..] == Kruskal(es, k + 1, comp', used + 1, n);
        }
      } else {
        CostFromIsCostSum(es, k + 1, comp, used, n);
        KruskalSkips(es, k, comp, used, n);
      }
    }
  }

  /**
   * The state of Kruskal's loop before position k, over the union-find's contents p, rk
   * and bd: they form a forest over nodes 0..n whose partition comp labels,
   * `remaining` is what the scan from k will still add, and `failing` whether it
   * will still reach an edge naming a missing node.
   */
  ghost predicate Scanning(p: seq<int>, rk: seq<int>, bd: int, edges: seq<Edge>, k: nat, comp: seq<int>, used: nat, n: nat,
                           remaining: int, failing: bool)
  {
    && k <= |edges|
    && |p| == n + 1 && Forest(p, rk, bd) && |comp| == n + 1 && SamePartition(RootsOf(p, rk, bd), comp)
    && remaining == CostFrom(edges, k, comp, used, n)
    && failing == Fails(edges, k, comp, used, n)
  }

  /**
   * One round of Kruskal's loop at position k: the union merges exactly when the
   * endpoints lie in different components; a merge adds the edge's cost and counts
   * the edge, and the loop is to stop once n edges are counted. The running total plus
   * the cost still to come stays the same.
   */
  method Consider(uf: UnionFind, edges: seq<Edge>, k: nat, n: nat, used: nat, totalCost: int,
                  ghost comp: seq<int>, ghost remaining: int, ghost failing: bool)
    returns (stop: bool, used': nat, totalCost': int, ghost comp': seq<int>, ghost remaining': int)
    requires k < |edges| && InRange(edges[k], n + 1) && uf.parent != uf.rank
    requires Scanning(uf.parent[..], uf.rank[..], uf.bound, edges, k, comp, used, n, remaining, failing)
    modifies uf, uf.rank, uf.parent
    ensures stop ==> totalCost' == totalCost + remaining && !failing
    ensures !stop ==> Scanning(uf.parent[..], uf.rank[..], uf.bound, edges, k + 1, comp', used', n, remaining', failing)
    ensures !stop ==> totalCost' + remaining' == totalCost + remaining
  {
    var e := edges[k];
    ghost var roots := uf.Roots();
    var merged := uf.Union(e.u, e.v);
    UnionStep(roots, uf.Roots(), comp, e.u, e.v, merged);
    used', totalCost', stop := used, totalCost, false;
    if merged {
      totalCost' := totalCost + e.cost;
      used' := used + 1;
      stop := used' == n;
    }
    comp' := if merged then Relabel(comp, comp[e.v], comp[e.u]) else comp;
    remaining' := CostFrom(edges, k + 1, comp', used', n);
  }

  /** A fresh union-find over nodes 0..n, every node on its own: the state before the first edge. */
  method Start(edges: seq<Edge>, n: nat) returns (uf: UnionFind)
    ensures fresh(uf) && fresh(uf.parent) && fresh(uf.rank) && uf.parent != uf.rank
    ensures Scanning(uf.parent[..], uf.rank[..], uf.bound, edges, 0, seq(n + 1, i => i), 0, n,
                     CostFrom(edges, 0, seq(n + 1, i => i), 0, n), Fails(edges, 0, seq(n + 1, i => i), 0, n))
  {
    uf := new UnionFind(n + 1);
  }

  /**
   * Kruskal's loop: union-find over nodes 0..n, each edge whose endpoints it merges
   * adds its cost, and the loop stops once n edges have been accepted. An edge
   * naming a node outside 0..n makes the union index past the union-find's arrays.
   */
  method Scan(edges: seq<Edge>, n: nat) returns (res: Result<int>)
    ensures res.Failure? <==> Fails(edges, 0, seq(n + 1, i => i), 0, n)
    ensures res.Failure? ==> res.error == IndexOutOfBounds
    ensures res.Success? ==> res.value == CostFrom(edges, 0, seq(n + 1, i => i), 0, n)
  {
    var uf := Start(edges, n);
    ghost var comp := seq(n + 1, i => i);
    var edgesUsed: nat := 0;
    var totalCost := 0;
    ghost var remaining := CostFrom(edges, 0, comp, 0, n);
    ghost var total := remaining;
    ghost var failing := Fails(edges, 0, comp, 0, n);
    var k: nat := 0;
    while k < |edges|
      invariant uf.parent != uf.rank
      invariant Scanning(uf.parent[..], uf.rank[..], uf.bound, edges, k, comp, edgesUsed, n, remaining, failing)
      invariant totalCost + remaining == total
    {
      if !InRange(edges[k], n + 1) {
        return Failure(IndexOutOfBounds);
      }
      var stop;
      stop, edgesUsed, totalCost, comp, remaining := Consider(uf, edges, k, n, edgesUsed, totalCost, comp, remaining, failing);
      if stop {
        break;
      }
      k := k + 1;
    }
    return Success(totalCost);
  }

  /**
   * The program: build the edge list, sort it by cost and run Kruskal's loop; the
   * result is the total cost of the accepted edges. It fails with an index error when
   * modules is short, or when the scan reaches a connection naming a missing device.
   */
  method MinTotalCost(n: nat, modules: seq<int>, connections: seq<Connection>) returns (res: Result<int>)
    ensures res.Failure? <==> |modules| < n || ScanFails(n, modules, connections)
    ensures res.Failure? ==> res.error == IndexOutOfBounds
    ensures res.Success? ==> res.value == CostSum(Accepted(n, modules, connections))
  {
    var built := BuildEdges(n, modules, connections);
    if built.Failure? {
      return Failure(built.error);
    }
    var edges := built.value;
    var sorted := new Edge[|edges|](q requires 0 <= q < |edges| => edges[q]);
    assert sorted[..] == edges;
    InsertionSort(sorted, Cheaper);
    res := Scan(sorted[..], n);
    CostFromIsCostSum(sorted[..], 0, seq(n + 1, i => i), 0, n);
  }

  /**
   * One device, module cost 1, and a connection between devices 5 and 6 of cost 100:
   * the hub edge sorts first, the scan stops after it, and the bad connection is never reached.
   */
  method UnreachedConnection() returns (res: Result<int>)
    ensures res == Success(1)
  {
    res := MinTotalCost(1, [1], [Connection(5, 6, 100)]);
    var es := [Edge(4, 5, 100), Edge(1, 0, 1)];
    assert Edges(1, [1], [Connection(5, 6, 100)]) == es;
    assert es[..1] == [Edge(4, 5, 100)] && Sort(es[..1], Cheaper) == [Edge(4, 5, 100)];
    assert InsertBack([Edge(4, 5, 100)], Edge(1, 0, 1), Cheaper) == [Edge(1, 0, 1), Edge(4, 5, 100)];
    assert Sort(es, Cheaper) == [Edge(1, 0, 1), Edge(4, 5, 100)];
    assert Kruskal([Edge(1, 0, 1), Edge(4, 5, 100)], 0, [0, 1], 0, 1) == [Edge(1, 0, 1)];
    assert seq(2, i => i) == [0, 1];
  }

  /** The same connection at cost 0 sorts first, and the union indexes past the arrays. */
  method ReachedConnection() returns (res: Result<int>)
    ensures res == Failure(IndexOutOfBounds)
  {
    res := MinTotalCost(1, [1], [Connection(5, 6, 0)]);
    var es := [Edge(4, 5, 0), Edge(1, 0, 1)];
    assert Edges(1, [1], [Connection(5, 6, 0)]) == es;
    assert Sort(es, Cheaper) == es;
    assert seq(2, i => i) == [0, 1];
  }

  /** The recorded output: three devices, modules [1, 2, 2], links 1-2 and 2-3 of cost 1, total 3. */
  lemma RecordedOutput()
    ensures CostSum(Accepted(3, [1, 2, 2], [Connection(1, 2, 1), Connection(2, 3, 1)])) == 3
  {
    var modules, connections := [1, 2, 2], [Connection(1, 2, 1), Connection(2, 3, 1)];
    var es := Edges(3, modules, connections);
    assert es == [Edge(0, 1, 1), Edge(1, 2, 1), Edge(3, 0, 1), Edge(3, 1, 2), Edge(3, 2, 2)];
    SortOfSorted(es, Cheaper);
    assert EndpointsBelow(es, 4);
    var c0 := [0, 1, 2, 3];
    assert c0 == seq(4, i => i);
    var c1 := Relabel(c0, 1, 0);
    assert c1 == [0, 0, 2, 3];
    var c2 := Relabel(c1, 2, 0);
    assert c2 == [0, 0, 0, 3];
    assert Kruskal(es, 2, c2, 2, 3) == [Edge(3, 0, 1)];
    assert Kruskal(es, 1, c1, 1, 3) == [Edge(1, 2, 1), Edge(3, 0, 1)];
    assert Kruskal(es, 0, c0, 0, 3) == [Edge(0, 1, 1), Edge(1, 2, 1), Edge(3, 0, 1)];
    var acc := [Edge(0, 1, 1), Edge(1, 2, 1), Edge(3, 0, 1)];
    assert acc[1..][1..] == [Edge(3, 0, 1)] && acc[1..][1..][1..] == [];
    assert CostSum(acc) == 1 + CostSum(acc[1..]) == 2 + CostSum(acc[1..][1..]) == 3;
  }
}
