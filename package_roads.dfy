/**
 * Package collection on a road map (adjacency lists, a two-level BFS and a
 * "backtrack" pass).
 *
 * As written, the count for one start location is the number of locations that
 * lie one or two roads away from it: each newly reached location adds one. The
 * backtrack pass polls the start location first and stops at once, so it adds 0.
 * The answer is the smallest such count over all start locations, and the
 * package values never influence it (they are only cleared along the way).
 */
module PackageRoads {

  /** Java's Integer.MAX_VALUE, the answer when there are no locations. */
  const IntMax: int := 0x7fff_ffff

  /** A road between two locations. */
  datatype Road = Road(u: int, v: int)

  /** Every road joins two of the locations 0..n-1. */
  predicate RoadsWithin(roads: seq<Road>, n: nat)
  {
    forall i :: 0 <= i < |roads| ==> 0 <= roads[i].u < n && 0 <= roads[i].v < n
  }

  /** What one road appends to w's adjacency list: the far end, once for each end at w. */
  function Ends(r: Road, w: int): seq<int>
  {
    (if r.u == w then [r.v] else []) + (if r.v == w then [r.u] else [])
  }

  /** w's adjacency list once the roads have been added in order. */
  function Neighbours(roads: seq<Road>, w: int): seq<int>
  {
    if roads == [] then [] else Neighbours(roads[..|roads| - 1], w) + Ends(roads[|roads| - 1], w)
  }

  /** y is adjacent to x exactly when a road joins them, in either direction. */
  lemma {:induction false} NeighboursAreRoads(roads: seq<Road>, x: int, y: int)
    ensures y in Neighbours(roads, x) <==> exists i :: 0 <= i < |roads| && (roads[i] == Road(x, y) || roads[i] == Road(y, x))
  {
    if roads != [] {
      var init, last := roads[..|roads| - 1], roads[|roads| - 1];
      NeighboursAreRoads(init, x, y);
      assert y in Ends(last, x) <==> last == Road(x, y) || last == Road(y, x);
      if y in Neighbours(roads, x) {
        if y in Neighbours(init, x) {
          var i :| 0 <= i < |init| && (init[i] == Road(x, y) || init[i] == Road(y, x));
          assert roads[i] == init[i];
        } else {
          assert y in Ends(last, x);
          assert roads[|roads| - 1] == last;
        }
      }
      if exists i :: 0 <= i < |roads| && (roads[i] == Road(x, y) || roads[i] == Road(y, x)) {
        var i :| 0 <= i < |roads| && (roads[i] == Road(x, y) || roads[i] == Road(y, x));
        if i < |roads| - 1 {
          assert init[i] == roads[i];
        } else {
          assert y in Ends(last, x);
        }
      }
    }
  }

  /** Roads run both ways: y is on x's list exactly when x is on y's. */
  lemma NeighboursSymmetric(roads: seq<Road>, x: int, y: int)
    ensures y in Neighbours(roads, x) <==> x in Neighbours(roads, y)
  {
    NeighboursAreRoads(roads, x, y);
    NeighboursAreRoads(roads, y, x);
  }

  /** Every adjacency list only names locations. */
  lemma {:induction false} NeighboursWithin(roads: seq<Road>, n: nat, w: int)
    requires RoadsWithin(roads, n)
    ensures forall k :: 0 <= k < |Neighbours(roads, w)| ==> 0 <= Neighbours(roads, w)[k] < n
  {
    if roads != [] {
      NeighboursWithin(roads[..|roads| - 1], n, w);
    }
  }

  /** The adjacency lists of locations 0..n-1. */
  function Graph(roads: seq<Road>, n: nat): (g: seq<seq<int>>)
    ensures |g| == n
  {
    seq(n, w => Neighbours(roads, w))
  }

  /** Every entry of every adjacency list is a location. */
  ghost predicate Within(graph: seq<seq<int>>)
  {
    forall w, k :: 0 <= w < |graph| && 0 <= k < |graph[w]| ==> 0 <= graph[w][k] < |graph|
  }

  lemma GraphWithin(roads: seq<Road>, n: nat)
    requires RoadsWithin(roads, n)
    ensures Within(Graph(roads, n))
  {
    forall w | 0 <= w < n {
      NeighboursWithin(roads, n, w);
    }
  }

  /** One empty list per location, then each road appended to both of its ends' lists. */
  method BuildGraph(n: nat, roads: seq<Road>) returns (graph: seq<seq<int>>)
    requires RoadsWithin(roads, n)
    ensures graph == Graph(roads, n)
  {
    graph := [];
    for i := 0 to n
      invariant graph == seq(i, _ => [])
    {
      graph := graph + [[]];
    }
    for j := 0 to |roads|
      invariant |graph| == n
      invariant forall w :: 0 <= w < n ==> graph[w] == Neighbours(roads[..j], w)
    {
      var u, v := roads[j].u, roads[j].v;
      graph := graph[u := graph[u] + [v]];
      graph := graph[v := graph[v] + [u]];
      assert roads[..j + 1][..j] == roads[..j];
    }
    assert roads[..|roads|] == roads;
  }

  /** The elements of a list, as a set. */
  ghost function Elements(s: seq<int>): set<int>
  {
    set x | x in s
  }

  /** Every location adjacent to a location of s. */
  ghost function Adjacent(graph: seq<seq<int>>, s: set<int>): set<int>
  {
    set w, y | w in s && 0 <= w < |graph| && y in graph[w] :: y
  }

  lemma AdjacentAdd(graph: seq<seq<int>>, s: set<int>, w: int)
    requires 0 <= w < |graph|
    ensures Adjacent(graph, s + {w}) == Adjacent(graph, s) + Elements(graph[w])
  {
    forall y | y in Adjacent(graph, s + {w})
      ensures y in Adjacent(graph, s) + Elements(graph[w])
    {
      var v :| v in s + {w} && 0 <= v < |graph| && y in graph[v];
      if v != w {
        assert y in Adjacent(graph, s);
      }
    }
    forall y | y in Adjacent(graph, s) + Elements(graph[w])
      ensures y in Adjacent(graph, s + {w})
    {
      if y in Elements(graph[w]) {
        assert w in s + {w} && y in graph[w];
      } else {
        var v :| v in s && 0 <= v < |graph| && y in graph[v];
        assert v in s + {w};
      }
    }
  }

  /**
   * The locations the BFS has polled after `level` levels: none at first, and after
   * each level the start together with everything adjacent to what was polled before.
   */
  ghost function Polled(graph: seq<seq<int>>, start: int, level: nat): set<int>
  {
    if level == 0 then {} else {start} + Adjacent(graph, Polled(graph, start, level - 1))
  }

  /** The locations at most two roads away from start. */
  ghost function Ball(graph: seq<seq<int>>, start: int): set<int>
  {
    set x | x in Polled(graph, start, 3)
  }

  /** The ball is what three levels of polling reach. */
  lemma BallIsPolled(graph: seq<seq<int>>, start: int)
    ensures Ball(graph, start) == Polled(graph, start, 3)
  {
  }

  /** The ball is the start, its neighbours and theirs. */
  lemma InBall(graph: seq<seq<int>>, start: int, x: int)
    requires 0 <= start < |graph| && Within(graph)
    ensures x in Ball(graph, start) <==>
      || x == start
      || x in graph[start]
      || exists m :: m in graph[start] && 0 <= m < |graph| && x in graph[m]
  {
    assert Adjacent(graph, {}) == {};
    assert Polled(graph, start, 1) == {start};
    AdjacentAdd(graph, {}, start);
    var near := Polled(graph, start, 2);
    assert near == {start} + Elements(graph[start]);
    if exists m :: m in graph[start] && 0 <= m < |graph| && x in graph[m] {
      var m :| m in graph[start] && 0 <= m < |graph| && x in graph[m];
      assert m in near;
    }
    if x in Adjacent(graph, near) {
      var m :| m in near && 0 <= m < |graph| && x in graph[m];
      if m == start {
        assert x in graph[start];
      }
    }
  }

  /** The ball only holds locations, so it has at most |graph| of them. */
  lemma BallSize(graph: seq<seq<int>>, start: int)
    requires 0 <= start < |graph| && Within(graph)
    ensures 1 <= |Ball(graph, start)| <= |graph|
  {
    var b := Ball(graph, start);
    InBall(graph, start, start);
    forall x | x in b
      ensures 0 <= x < |graph|
    {
      InBall(graph, start, x);
    }
    RangeSize(b, |graph|);
  }

  /** A set of numbers below n has at most n members. */
  lemma {:induction false} RangeSize(s: set<int>, n: nat)
    requires forall x :: x in s ==> 0 <= x < n
    ensures |s| <= n
  {
    if n == 0 {
      assert s == {} by {
        assert forall x :: x !in s;
      }
    } else {
      RangeSize(s - {n - 1}, n - 1);
      if n - 1 in s {
        assert s == (s - {n - 1}) + {n - 1};
      } else {
        assert s == s - {n - 1};
      }
    }
  }

  /** The visited flags are set exactly on the locations of `marked`. */
  ghost predicate Marks(visited: seq<bool>, marked: set<int>)
  {
    && (forall x :: x in marked ==> 0 <= x < |visited|)
    && (forall x :: 0 <= x < |visited| ==> (visited[x] <==> x in marked))
  }

  predicate Distinct(s: seq<int>)
  {
    forall a, b :: 0 <= a < b < |s| ==> s[a] != s[b]
  }

  lemma DistinctAppend(a: seq<int>, b: seq<int>)
    requires Distinct(a) && Distinct(b) && forall x :: x in a ==> x !in b
    ensures Distinct(a + b)
  {
    forall p, q | 0 <= p < q < |a + b|
      ensures (a + b)[p] != (a + b)[q]
    {
      if q < |a| {
        assert (a + b)[p] == a[p] && (a + b)[q] == a[q];
      } else if p < |a| {
        assert (a + b)[p] == a[p] && a[p] in a;
        assert (a + b)[q] == b[q - |a|] && b[q - |a|] in b;
      } else {
        assert (a + b)[p] == b[p - |a|] && (a + b)[q] == b[q - |a|];
      }
    }
  }

  lemma DistinctTail(s: seq<int>)
    requires Distinct(s) && s != []
    ensures Distinct(s[1..]) && s[0] !in s[1..]
  {
    forall a | 0 <= a < |s| - 1
      ensures s[1..][a] != s[0]
    {
      assert s[1..][a] == s[a + 1];
    }
  }

  /**
   * The BFS state between polls: the queue holds, once each, the locations marked but
   * not yet polled; the marked ones are the start and everything adjacent to a polled
   * location; and each marking counted one road.
   */
  ghost predicate Searching(graph: seq<seq<int>>, start: int, visited: seq<bool>, queue: seq<int>, count: int, marked: set<int>, polled: set<int>)
  {
    && Marks(visited, marked)
    && Distinct(queue)
    && (forall x :: x in queue <==> x in marked && x !in polled)
    && polled <= marked
    && marked == {start} + Adjacent(graph, polled)
    && count == |marked| - 1
  }

  /** Packages at polled locations have been cleared; the others are as they were. */
  ghost predicate Collected(packages: seq<int>, before: seq<int>, polled: set<int>)
  {
    && |packages| == |before|
    && forall x :: 0 <= x < |packages| ==> packages[x] == if x in polled && before[x] == 1 then 0 else before[x]
  }

  /**
   * The neighbour loop: every unvisited neighbour of current is marked, queued and
   * counted; what is queued is exactly the neighbours that were not marked before.
   */
  method Explore(graph: seq<seq<int>>, current: nat, visited: array<bool>, queue: seq<int>, count: int, ghost marked: set<int>)
    returns (queue': seq<int>, count': int, ghost marked': set<int>, ghost added: seq<int>)
    requires Within(graph) && current < |graph| && visited.Length == |graph|
    requires Marks(visited[..], marked) && count == |marked| - 1
    requires Distinct(queue) && forall x :: x in queue ==> x in marked
    modifies visited
    ensures marked' == marked + Elements(graph[current])
    ensures Marks(visited[..], marked') && count' == |marked'| - 1
    ensures queue' == queue + added && Distinct(queue')
    ensures forall x :: x in added <==> x in marked' && x !in marked
  {
    queue', count', marked', added := queue, count, marked, [];
    var nbrs := graph[current];
    for k := 0 to |nbrs|
      invariant forall x :: x in marked' <==> x in marked || x in nbrs[..k]
      invariant Marks(visited[..], marked') && count' == |marked'| - 1
      invariant queue' == queue + added && Distinct(added)
      invariant forall x :: x in added <==> x in marked' && x !in marked
    {
      var neighbor := nbrs[k];
      if !visited[neighbor] {
        ghost var v := visited[..];
        MarkOne(v, marked', neighbor);
        visited[neighbor] := true;
        assert visited[..] == v[neighbor := true];
        DistinctSnoc(added, neighbor);
        queue' := queue' + [neighbor];
        added := added + [neighbor];
        count' := count' + 1;
        marked' := marked' + {neighbor};
      }
      assert nbrs[..k + 1] == nbrs[..k] + [neighbor];
    }
    assert nbrs[..|nbrs|] == nbrs;
    forall x
      ensures x in marked' <==> x in marked + Elements(nbrs)
    {
    }
    DistinctAppend(queue, added);
  }

  /** Setting the flag of an unmarked location marks one more location. */
  lemma MarkOne(visited: seq<bool>, marked: set<int>, x: int)
    requires Marks(visited, marked) && 0 <= x < |visited| && !visited[x]
    ensures x !in marked && Marks(visited[x := true], marked + {x}) && |marked + {x}| == |marked| + 1
  {
  }

  lemma DistinctSnoc(s: seq<int>, x: int)
    requires Distinct(s) && x !in s
    ensures Distinct(s + [x])
  {
    forall p, q | 0 <= p < q < |s| + 1
      ensures (s + [x])[p] != (s + [x])[q]
    {
      assert (s + [x])[p] == s[p];
      if q == |s| {
        assert s[p] in s;
      }
    }
  }

  /** Clearing the package of one more polled location. */
  lemma CollectOne(packages: seq<int>, before: seq<int>, polled: set<int>, c: int)
    requires Collected(packages, before, polled) && c !in polled && 0 <= c < |packages|
    ensures Collected(if packages[c] == 1 then packages[c := 0] else packages, before, polled + {c})
  {
  }

  /** Poll the front of the queue: clear its package and explore its neighbours. */
  method PollOne(graph: seq<seq<int>>, start: int, packages: array<int>, visited: array<bool>, queue: seq<int>, count: int,
                 ghost before: seq<int>, ghost marked: set<int>, ghost polled: set<int>)
    returns (current: int, queue': seq<int>, count': int, ghost marked': set<int>, ghost added: seq<int>)
    requires Within(graph) && visited.Length == |graph| && packages.Length == |graph| && queue != []
    requires Searching(graph, start, visited[..], queue, count, marked, polled) && Collected(packages[..], before, polled)
    modifies packages, visited
    ensures current == queue[0] && queue' == queue[1..] + added
    ensures Searching(graph, start, visited[..], queue', count', marked', polled + {current})
    ensures Collected(packages[..], before, polled + {current})
  {
    current := queue[0];
    assert current in marked;
    var rest := queue[1..];
    CollectOne(packages[..], before, polled, current);
    if packages[current] == 1 {
      packages[current] := 0;
    }
    DistinctTail(queue);
    QueueTail(queue, marked, polled);
    queue', count', marked', added := Explore(graph, current, visited, rest, count, marked);
    SearchStep(graph, start, visited[..], queue, rest, marked, polled, queue', count', marked', added);
  }

  /** The tail of the queue holds exactly the marked locations not yet polled, bar its head. */
  lemma QueueTail(queue: seq<int>, marked: set<int>, polled: set<int>)
    requires queue != [] && queue[0] in marked && queue[0] !in polled
    requires Distinct(queue) && forall x :: x in queue <==> x in marked && x !in polled
    ensures forall x :: x in queue[1..] <==> x in marked && x !in polled + {queue[0]}
  {
    forall x | x in queue[1..]
      ensures x in marked && x !in polled + {queue[0]}
    {
      var a :| 0 <= a < |queue[1..]| && queue[1..][a] == x;
      assert queue[a + 1] == x;
    }
    forall x | x in marked && x !in polled + {queue[0]}
      ensures x in queue[1..]
    {
      var a :| 0 <= a < |queue| && queue[a] == x;
      assert queue[a] == queue[1..][a - 1];
    }
  }

  /** Polling the head and exploring its neighbours keeps the search state. */
  lemma SearchStep(graph: seq<seq<int>>, start: int, visited: seq<bool>, queue: seq<int>, rest: seq<int>,
                   marked: set<int>, polled: set<int>, queue': seq<int>, count': int, marked': set<int>, added: seq<int>)
    requires queue != [] && 0 <= queue[0] < |graph| && queue[0] in marked
    requires polled <= marked && marked == {start} + Adjacent(graph, polled)
    requires forall x :: x in rest <==> x in marked && x !in polled + {queue[0]}
    requires marked' == marked + Elements(graph[queue[0]])
    requires Marks(visited, marked') && count' == |marked'| - 1
    requires queue' == rest + added && Distinct(queue')
    requires forall x :: x in added <==> x in marked' && x !in marked
    ensures Searching(graph, start, visited, queue', count', marked', polled + {queue[0]})
  {
    var polled' := polled + {queue[0]};
    AdjacentAdd(graph, polled, queue[0]);
    assert marked' == {start} + Adjacent(graph, polled');
    forall x
      ensures x in queue' <==> x in marked' && x !in polled'
    {
      assert x in queue' <==> x in rest || x in added;
      if x in marked' && x !in polled' {
        if x in marked {
          assert x in rest;
        } else {
          assert x in added;
        }
      }
    }
  }

  lemma DropHead(queue: seq<int>, i: nat, tail: seq<int>, added: seq<int>)
    requires i < |queue|
    ensures (queue[i..] + tail)[0] == queue[i]
    ensures (queue[i..] + tail)[1..] + added == queue[i + 1..] + (tail + added)
  {
  }

  lemma PolledGrows(queue: seq<int>, i: nat, polled: set<int>)
    requires i < |queue| && forall j :: 0 <= j < i ==> queue[j] in polled
    ensures forall j :: 0 <= j < i + 1 ==> queue[j] in polled + {queue[i]}
  {
  }

  /** One level of the BFS: poll exactly the locations queued when the level began. */
  method Level(graph: seq<seq<int>>, start: int, packages: array<int>, visited: array<bool>, queue: seq<int>, count: int,
               ghost before: seq<int>, ghost marked: set<int>, ghost polled: set<int>)
    returns (queue': seq<int>, count': int, ghost marked': set<int>)
    requires Within(graph) && visited.Length == |graph| && packages.Length == |graph|
    requires Searching(graph, start, visited[..], queue, count, marked, polled) && Collected(packages[..], before, polled)
    modifies packages, visited
    ensures Searching(graph, start, visited[..], queue', count', marked', marked) && Collected(packages[..], before, marked)
  {
    queue', count', marked' := queue, count, marked;
    ghost var polled' := polled;
    ghost var tail: seq<int> := [];
    var size := |queue|;
    for i := 0 to size
      invariant Searching(graph, start, visited[..], queue', count', marked', polled') && Collected(packages[..], before, polled')
      invariant Progress(queue, i, tail, queue', polled, polled', marked)
    {
      var current;
      ghost var added;
      ghost var q := queue';
      current, queue', count', marked', added := PollOne(graph, start, packages, visited, queue', count', before, marked', polled');
      ProgressStep(queue, i, tail, q, polled, polled', marked, added);
      polled' := polled' + {current};
      tail := tail + added;
    }
    ProgressDone(queue, tail, queue', polled, polled', marked);
  }

  /**
   * Within a level, after i polls: the first i locations of the level's queue have been
   * polled and the rest of it is still at the front of the queue.
   */
  ghost predicate Progress(queue: seq<int>, i: int, tail: seq<int>, queue': seq<int>, polled: set<int>, polled': set<int>, marked: set<int>)
  {
    && 0 <= i <= |queue|
    && polled <= polled' <= marked
    && (forall j :: 0 <= j < i ==> queue[j] in polled')
    && queue' == queue[i..] + tail
  }

  lemma ProgressStep(queue: seq<int>, i: int, tail: seq<int>, queue': seq<int>, polled: set<int>, polled': set<int>,
                     marked: set<int>, added: seq<int>)
    requires Progress(queue, i, tail, queue', polled, polled', marked) && i < |queue|
    requires forall x :: x in queue ==> x in marked
    ensures queue' != [] && queue'[0] == queue[i]
    ensures Progress(queue, i + 1, tail + added, queue'[1..] + added, polled, polled' + {queue'[0]}, marked)
  {
    DropHead(queue, i, tail, added);
    assert queue[i] in queue;
    PolledGrows(queue, i, polled');
  }

  lemma ProgressDone(queue: seq<int>, tail: seq<int>, queue': seq<int>, polled: set<int>, polled': set<int>, marked: set<int>)
    requires Progress(queue, |queue|, tail, queue', polled, polled', marked)
    requires forall x :: x in marked && x !in polled ==> x in queue
    ensures polled' == marked
  {
    forall x | x in marked
      ensures x in polled'
    {
      if x !in polled {
        var j :| 0 <= j < |queue| && queue[j] == x;
      }
    }
  }

  /**
   * Breadth-first search two levels deep from start, with every location unvisited at
   * first. It counts one road per location reached, so the count is the number of
   * locations one or two roads away; those locations are left visited, and the packages
   * of the start and its neighbours are cleared.
   */
  method Bfs(start: nat, graph: seq<seq<int>>, packages: array<int>, visited: array<bool>) returns (roadsTraversed: int)
    requires Within(graph) && start < |graph| && packages.Length == |graph| && visited.Length == |graph|
    requires forall x :: 0 <= x < visited.Length ==> !visited[x]
    modifies packages, visited
    ensures roadsTraversed == |Ball(graph, start)| - 1
    ensures Marks(visited[..], Ball(graph, start))
    ensures Collected(packages[..], old(packages[..]), Polled(graph, start, 2))
  {
    var queue := [start];
    visited[start] := true;
    roadsTraversed := 0;
    ghost var marked: set<int> := {start};
    assert Adjacent(graph, {}) == {};
    for level := 0 to 2
      invariant Searching(graph, start, visited[..], queue, roadsTraversed, marked, Polled(graph, start, level))
      invariant marked == Polled(graph, start, level + 1)
      invariant Collected(packages[..], old(packages[..]), Polled(graph, start, level))
    {
      queue, roadsTraversed, marked := Level(graph, start, packages, visited, queue, roadsTraversed, old(packages[..]), marked, Polled(graph, start, level));
    }
    BallIsPolled(graph, start);
  }

  /**
   * The return pass. Its loop polls the start location first and leaves at once, so
   * no road is counted and the neighbour loop of the source is never reached; the only
   * change is that start is marked visited.
   */
  method Backtrack(start: nat, graph: seq<seq<int>>, visited: array<bool>) returns (roadsTraversed: int)
    requires start < visited.Length
    modifies visited
    ensures roadsTraversed == 0
    ensures visited[..] == old(visited[..])[start := true]
  {
    var queue := [start];
    visited[start] := true;
    roadsTraversed := 0;
    var current := queue[0];
    queue := queue[1..];
    assert current == start && queue == [];
  }

  function Min(a: int, b: int): int
  {
    if a <= b then a else b
  }

  /** The smallest of c[..k], or Integer.MAX_VALUE when k is 0. */
  function MinUpTo(c: seq<int>, k: nat): int
    requires k <= |c|
  {
    if k == 0 then IntMax else Min(MinUpTo(c, k - 1), c[k - 1])
  }

  /** With entries no larger than Integer.MAX_VALUE, MinUpTo is attained and no entry is smaller. */
  lemma {:induction false} MinUpToIsLeast(c: seq<int>, k: nat)
    requires 0 < k <= |c|
    requires forall i :: 0 <= i < |c| ==> c[i] <= IntMax
    ensures exists s :: 0 <= s < k && MinUpTo(c, k) == c[s]
    ensures forall s :: 0 <= s < k ==> MinUpTo(c, k) <= c[s]
  {
    if k == 1 {
      assert MinUpTo(c, 1) == c[0];
    } else {
      MinUpToIsLeast(c, k - 1);
      if MinUpTo(c, k) == c[k - 1] {
        assert 0 <= k - 1 < k;
      } else {
        var s :| 0 <= s < k - 1 && MinUpTo(c, k - 1) == c[s];
        assert MinUpTo(c, k) == c[s];
      }
    }
  }

  /** The count from each start location. */
  ghost function Counts(graph: seq<seq<int>>): (c: seq<int>)
    ensures |c| == |graph|
  {
    CountsUpTo(graph, |graph|)
  }

  /** The counts from the first k start locations. */
  ghost function CountsUpTo(graph: seq<seq<int>>, k: nat): (c: seq<int>)
    requires k <= |graph|
    ensures |c| == k
  {
    if k == 0 then [] else CountsUpTo(graph, k - 1) + [|Ball(graph, k - 1)| - 1]
  }

  /** The count from start s is one less than the number of locations within two roads of s. */
  lemma CountsAt(graph: seq<seq<int>>, s: int)
    requires 0 <= s < |graph|
    ensures Counts(graph)[s] == |Ball(graph, s)| - 1
  {
    CountsUpToAt(graph, |graph|, s);
  }

  lemma {:induction false} CountsUpToAt(graph: seq<seq<int>>, k: nat, s: int)
    requires 0 <= s < k <= |graph|
    ensures CountsUpTo(graph, k)[s] == |Ball(graph, s)| - 1
  {
    if s < k - 1 {
      CountsUpToAt(graph, k - 1, s);
    }
  }

  /** The answer: the smallest count over all start locations. */
  ghost function Fewest(graph: seq<seq<int>>): int
  {
    MinUpTo(Counts(graph), |graph|)
  }

  /** Every count lies between 0 and |graph| - 1. */
  lemma CountsBound(graph: seq<seq<int>>)
    requires Within(graph)
    ensures forall s :: 0 <= s < |graph| ==> 0 <= Counts(graph)[s] <= |graph| - 1
  {
    forall s | 0 <= s < |graph|
      ensures 0 <= Counts(graph)[s] <= |graph| - 1
    {
      BallSize(graph, s);
      CountsAt(graph, s);
    }
  }

  /**
   * The answer is attained by some start location, no start location does better,
   * and it is below the number of locations.
   */
  lemma FewestIsLeast(graph: seq<seq<int>>)
    requires 0 < |graph| <= IntMax && Within(graph)
    ensures exists s :: 0 <= s < |graph| && Fewest(graph) == |Ball(graph, s)| - 1
    ensures forall s :: 0 <= s < |graph| ==> Fewest(graph) <= |Ball(graph, s)| - 1
    ensures 0 <= Fewest(graph) <= |graph| - 1
  {
    var c := Counts(graph);
    CountsBound(graph);
    MinUpToIsLeast(c, |graph|);
    var s :| 0 <= s < |graph| && MinUpTo(c, |graph|) == c[s];
    CountsAt(graph, s);
    forall t | 0 <= t < |graph|
      ensures Fewest(graph) <= |Ball(graph, t)| - 1
    {
      CountsAt(graph, t);
    }
  }

  /**
   * The program: build the adjacency lists, run the BFS and the backtrack pass from
   * every start with fresh visited flags, and keep the smallest count. Every package
   * of value 1 ends up cleared, since every location is polled as a start.
   */
  method FindMinRoads(packages: array<int>, roads: seq<Road>) returns (minRoads: int)
    requires RoadsWithin(roads, packages.Length)
    modifies packages
    ensures minRoads == Fewest(Graph(roads, packages.Length))
    ensures forall x :: 0 <= x < packages.Length ==> packages[x] == if old(packages[x]) == 1 then 0 else old(packages[x])
  {
    var n := packages.Length;
    var graph := BuildGraph(n, roads);
    GraphWithin(roads, n);
    minRoads := IntMax;
    for start := 0 to n
      invariant minRoads == MinUpTo(Counts(graph), start)
      invariant ClearedOrKept(packages[..], old(packages[..]))
      invariant ClearedBelow(packages[..], old(packages[..]), start)
    {
      ghost var before := packages[..];
      minRoads := FromStart(start, graph, packages, minRoads);
      ClearedMore(old(packages[..]), before, packages[..], start);
    }
    forall x | 0 <= x < n
      ensures packages[x] == if old(packages[x]) == 1 then 0 else old(packages[x])
    {
      assert ClearedAt(packages[..], old(packages[..]), x);
    }
  }

  /**
   * One round of the outer loop: fresh visited flags, the BFS and the backtrack pass.
   * The running minimum takes in the start's count, and the packages of the start and
   * its neighbours are cleared.
   */
  method FromStart(start: nat, graph: seq<seq<int>>, packages: array<int>, minRoads: int) returns (minRoads': int)
    requires Within(graph) && start < |graph| && packages.Length == |graph|
    requires minRoads == MinUpTo(Counts(graph), start)
    modifies packages
    ensures minRoads' == MinUpTo(Counts(graph), start + 1)
    ensures Collected(packages[..], old(packages[..]), Polled(graph, start, 2))
    ensures ClearedOrKept(packages[..], old(packages[..])) && ClearedAt(packages[..], old(packages[..]), start)
  {
    var visited := new bool[|graph|](_ => false);
    var roadsTraversed := 0;
    var fromBfs := Bfs(start, graph, packages, visited);
    roadsTraversed := roadsTraversed + fromBfs;
    var fromBacktrack := Backtrack(start, graph, visited);
    roadsTraversed := roadsTraversed + fromBacktrack;
    CountsAt(graph, start);
    minRoads' := Min(minRoads, roadsTraversed);
    assert start in Polled(graph, start, 2);
  }

  /** Every package is either as it was or a cleared 1. */
  ghost predicate ClearedOrKept(packages: seq<int>, before: seq<int>)
  {
    && |packages| == |before|
    && forall x :: 0 <= x < |packages| ==> packages[x] == before[x] || (before[x] == 1 && packages[x] == 0)
  }

  /** The package at x has been cleared if it was 1. */
  ghost predicate ClearedAt(packages: seq<int>, before: seq<int>, x: int)
    requires |packages| == |before|
  {
    0 <= x < |packages| && packages[x] == if before[x] == 1 then 0 else before[x]
  }

  /** The packages below k have all been cleared. */
  ghost predicate ClearedBelow(packages: seq<int>, before: seq<int>, k: int)
    requires |packages| == |before|
  {
    forall x :: 0 <= x < k && x < |packages| ==> ClearedAt(packages, before, x)
  }

  /** One more round that clears its start extends the cleared prefix by one. */
  lemma ClearedMore(p0: seq<int>, p1: seq<int>, p2: seq<int>, start: int)
    requires ClearedOrKept(p1, p0) && ClearedBelow(p1, p0, start)
    requires ClearedOrKept(p2, p1) && ClearedAt(p2, p1, start)
    ensures ClearedOrKept(p2, p0) && ClearedBelow(p2, p0, start + 1)
  {
    forall x | 0 <= x < start + 1 && x < |p2|
      ensures ClearedAt(p2, p0, x)
    {
      if x < start {
        assert ClearedAt(p1, p0, x);
      }
    }
  }

  /**
   * The count from start equals |b| - 1 for any set b holding exactly the locations at
   * most two roads from start.
   */
  lemma CountIs(graph: seq<seq<int>>, start: int, b: set<int>, k: int)
    requires 0 <= start < |graph| && Within(graph) && |b| == k + 1
    requires start in b && forall x :: x in graph[start] ==> x in b
    requires forall m, x :: m in graph[start] && 0 <= m < |graph| && x in graph[m] ==> x in b
    requires forall x :: x in b ==> x == start || x in graph[start] || exists m :: m in graph[start] && 0 <= m < |graph| && x in graph[m]
    ensures Counts(graph)[start] == k
  {
    forall x
      ensures x in Ball(graph, start) <==> x in b
    {
      InBall(graph, start, x);
    }
    assert Ball(graph, start) == b;
    CountsAt(graph, start);
  }

  /** The roads of the two recorded inputs, written one appended road at a time. */
  const Roads1: seq<Road> := [Road(0, 1)] + [Road(1, 2)] + [Road(2, 3)] + [Road(3, 4)] + [Road(4, 5)]
  const Roads2: seq<Road> := [Road(0, 1)] + [Road(0, 2)] + [Road(1, 3)] + [Road(1, 4)] + [Road(2, 5)] + [Road(5, 6)] + [Road(5, 7)]

  /** One more road appends its ends to each adjacency list. */
  lemma NeighboursSnoc(roads: seq<Road>, r: Road, w: int)
    ensures Neighbours(roads + [r], w) == Neighbours(roads, w) + Ends(r, w)
  {
    assert (roads + [r])[..|roads|] == roads;
  }

  /** Location w's adjacency list under the first recorded roads. */
  lemma Neighbours1(w: int)
    requires 0 <= w < 6
    ensures Neighbours(Roads1, w) == Graph1[w]
  {
    var r1 := [Road(0, 1)];
    var r2 := r1 + [Road(1, 2)];
    var r3 := r2 + [Road(2, 3)];
    var r4 := r3 + [Road(3, 4)];
    NeighboursSnoc([], Road(0, 1), w);
    NeighboursSnoc(r1, Road(1, 2), w);
    NeighboursSnoc(r2, Road(2, 3), w);
    NeighboursSnoc(r3, Road(3, 4), w);
    NeighboursSnoc(r4, Road(4, 5), w);
    Ends1(w);
  }

  lemma Ends1(w: int)
    requires 0 <= w < 6
    ensures Ends(Road(0, 1), w) + Ends(Road(1, 2), w) + Ends(Road(2, 3), w) + Ends(Road(3, 4), w) + Ends(Road(4, 5), w) == Graph1[w]
  {
    var e := Ends(Road(0, 1), w) + Ends(Road(1, 2), w) + Ends(Road(2, 3), w) + Ends(Road(3, 4), w) + Ends(Road(4, 5), w);
    if w == 0 {
      assert e == [1];
    } else if w == 1 {
      assert e == [0, 2];
    } else if w == 2 {
      assert e == [1, 3];
    } else if w == 3 {
      assert e == [2, 4];
    } else if w == 4 {
      assert e == [3, 5];
    } else {
      assert e == [4];
    }
  }

  /** Location w's adjacency list under the second recorded roads. */
  lemma Neighbours2(w: int)
    requires 0 <= w < 8
    ensures Neighbours(Roads2, w) == Graph2[w]
  {
    var r1 := [Road(0, 1)];
    var r2 := r1 + [Road(0, 2)];
    var r3 := r2 + [Road(1, 3)];
    var r4 := r3 + [Road(1, 4)];
    var r5 := r4 + [Road(2, 5)];
    var r6 := r5 + [Road(5, 6)];
    NeighboursSnoc([], Road(0, 1), w);
    NeighboursSnoc(r1, Road(0, 2), w);
    NeighboursSnoc(r2, Road(1, 3), w);
    NeighboursSnoc(r3, Road(1, 4), w);
    NeighboursSnoc(r4, Road(2, 5), w);
    NeighboursSnoc(r5, Road(5, 6), w);
    NeighboursSnoc(r6, Road(5, 7), w);
    Ends2(w);
  }

  lemma Ends2(w: int)
    requires 0 <= w < 8
    ensures Ends(Road(0, 1), w) + Ends(Road(0, 2), w) + Ends(Road(1, 3), w) + Ends(Road(1, 4), w)
            + Ends(Road(2, 5), w) + Ends(Road(5, 6), w) + Ends(Road(5, 7), w) == Graph2[w]
  {
    var e := Ends(Road(0, 1), w) + Ends(Road(0, 2), w) + Ends(Road(1, 3), w) + Ends(Road(1, 4), w)
             + Ends(Road(2, 5), w) + Ends(Road(5, 6), w) + Ends(Road(5, 7), w);
    if w == 0 {
      assert e == [1, 2];
    } else if w == 1 {
      assert e == [0, 3, 4];
    } else if w == 2 {
      assert e == [0, 5];
    } else if w == 3 || w == 4 {
      assert e == [1];
    } else if w == 5 {
      assert e == [2, 6, 7];
    } else {
      assert e == [5];
    }
  }

  const Graph1: seq<seq<int>> := [[1], [0, 2], [1, 3], [2, 4], [3, 5], [4]]
  const Graph2: seq<seq<int>> := [[1, 2], [0, 3, 4], [0, 5], [1], [1], [2, 6, 7], [5], [5]]

  /** The adjacency lists built from the first recorded roads: a path of six locations. */
  lemma BuiltGraph1()
    ensures Graph(Roads1, 6) == Graph1 && Within(Graph1)
  {
    forall w | 0 <= w < 6
      ensures Graph(Roads1, 6)[w] == Graph1[w]
    {
      Neighbours1(w);
    }
    GraphWithin(Roads1, 6);
  }

  /** The adjacency lists built from the second recorded roads: a tree of eight locations. */
  lemma BuiltGraph2()
    ensures Graph(Roads2, 8) == Graph2 && Within(Graph2)
  {
    forall w | 0 <= w < 8
      ensures Graph(Roads2, 8)[w] == Graph2[w]
    {
      Neighbours2(w);
    }
    GraphWithin(Roads2, 8);
  }

  const Counts1: seq<int> := [2, 3, 4, 4, 3, 2]
  const Counts2: seq<int> := [5, 4, 5, 3, 3, 4, 3, 3]

  /** The count from each start on the path of six locations, one start at a time. */
  lemma PathCount0(g: seq<seq<int>>)
    requires g == Graph(Roads1, 6)
    ensures Counts(g)[0] == 2
  {
    BuiltGraph1();
    assert 1 in g[0] && 2 in g[1];
    CountIs(g, 0, {0, 1, 2}, 2);
  }

  lemma PathCount1(g: seq<seq<int>>)
    requires g == Graph(Roads1, 6)
    ensures Counts(g)[1] == 3
  {
    BuiltGraph1();
    assert 0 in g[1] && 2 in g[1] && 3 in g[2];
    CountIs(g, 1, {0, 1, 2, 3}, 3);
  }

  lemma PathCount2(g: seq<seq<int>>)
    requires g == Graph(Roads1, 6)
    ensures Counts(g)[2] == 4
  {
    BuiltGraph1();
    assert 1 in g[2] && 3 in g[2] && 0 in g[1] && 4 in g[3];
    CountIs(g, 2, {0, 1, 2, 3, 4}, 4);
  }

  lemma PathCount3(g: seq<seq<int>>)
    requires g == Graph(Roads1, 6)
    ensures Counts(g)[3] == 4
  {
    BuiltGraph1();
    assert 2 in g[3] && 4 in g[3] && 1 in g[2] && 5 in g[4];
    CountIs(g, 3, {1, 2, 3, 4, 5}, 4);
  }

  lemma PathCount4(g: seq<seq<int>>)
    requires g == Graph(Roads1, 6)
    ensures Counts(g)[4] == 3
  {
    BuiltGraph1();
    assert 3 in g[4] && 5 in g[4] && 2 in g[3];
    CountIs(g, 4, {2, 3, 4, 5}, 3);
  }

  lemma PathCount5(g: seq<seq<int>>)
    requires g == Graph(Roads1, 6)
    ensures Counts(g)[5] == 2
  {
    BuiltGraph1();
    assert 4 in g[5] && 3 in g[4];
    CountIs(g, 5, {3, 4, 5}, 2);
  }

  /** The count from each start on the tree of eight locations, one start at a time. */
  lemma TreeCount0(g: seq<seq<int>>)
    requires g == Graph(Roads2, 8)
    ensures Counts(g)[0] == 5
  {
    BuiltGraph2();
    assert 1 in g[0] && 2 in g[0] && 3 in g[1] && 4 in g[1] && 5 in g[2];
    CountIs(g, 0, {0, 1, 2, 3, 4, 5}, 5);
  }

  lemma TreeCount1(g: seq<seq<int>>)
    requires g == Graph(Roads2, 8)
    ensures Counts(g)[1] == 4
  {
    BuiltGraph2();
    assert 0 in g[1] && 3 in g[1] && 4 in g[1] && 2 in g[0];
    CountIs(g, 1, {0, 1, 2, 3, 4}, 4);
  }

  lemma TreeCount2(g: seq<seq<int>>)
    requires g == Graph(Roads2, 8)
    ensures Counts(g)[2] == 5
  {
    BuiltGraph2();
    assert 0 in g[2] && 5 in g[2] && 1 in g[0] && 6 in g[5] && 7 in g[5];
    CountIs(g, 2, {0, 1, 2, 5, 6, 7}, 5);
  }

  lemma TreeCount3(g: seq<seq<int>>)
    requires g == Graph(Roads2, 8)
    ensures Counts(g)[3] == 3
  {
    BuiltGraph2();
    assert 1 in g[3] && 0 in g[1] && 4 in g[1];
    CountIs(g, 3, {0, 1, 3, 4}, 3);
  }

  lemma TreeCount4(g: seq<seq<int>>)
    requires g == Graph(Roads2, 8)
    ensures Counts(g)[4] == 3
  {
    BuiltGraph2();
    assert 1 in g[4] && 0 in g[1] && 3 in g[1];
    CountIs(g, 4, {0, 1, 3, 4}, 3);
  }

  lemma TreeCount5(g: seq<seq<int>>)
    requires g == Graph(Roads2, 8)
    ensures Counts(g)[5] == 4
  {
    BuiltGraph2();
    assert 2 in g[5] && 6 in g[5] && 7 in g[5] && 0 in g[2];
    CountIs(g, 5, {0, 2, 5, 6, 7}, 4);
  }

  lemma TreeCount6(g: seq<seq<int>>)
    requires g == Graph(Roads2, 8)
    ensures Counts(g)[6] == 3
  {
    BuiltGraph2();
    assert 5 in g[6] && 2 in g[5] && 7 in g[5];
    CountIs(g, 6, {2, 5, 6, 7}, 3);
  }

  lemma TreeCount7(g: seq<seq<int>>)
    requires g == Graph(Roads2, 8)
    ensures Counts(g)[7] == 3
  {
    BuiltGraph2();
    assert 5 in g[7] && 2 in g[5] && 6 in g[5];
    CountIs(g, 7, {2, 5, 6, 7}, 3);
  }

  /** The smallest count on a graph whose counts are known. */
  lemma FewestOf(g: seq<seq<int>>, c: seq<int>)
    requires |c| == |g| && forall s :: 0 <= s < |g| ==> Counts(g)[s] == c[s]
    ensures Fewest(g) == MinUpTo(c, |c|)
  {
    assert Counts(g) == c;
  }

  /** The output recorded for the first input. */
  lemma RecordedOutput1()
    ensures Fewest(Graph(Roads1, 6)) == 2
  {
    var g := Graph(Roads1, 6);
    PathCount0(g);
    PathCount1(g);
    PathCount2(g);
    PathCount3(g);
    PathCount4(g);
    PathCount5(g);
    FewestOf(g, Counts1);
  }

  /** The output recorded for the second input. */
  lemma RecordedOutput2()
    ensures Fewest(Graph(Roads2, 8)) == 3
  {
    var g := Graph(Roads2, 8);
    TreeCount0(g);
    TreeCount1(g);
    TreeCount2(g);
    TreeCount3(g);
    TreeCount4(g);
    TreeCount5(g);
    TreeCount6(g);
    TreeCount7(g);
    FewestOf(g, Counts2);
  }

}
