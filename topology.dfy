/**
 * The editing and optimisation logic of the network topology designer: a list of
 * nodes, a list of connections between them, the editor's state while links are
 * drawn (source node, target node, connection being edited, the cost and bandwidth
 * in the form), the total-cost metric, and the "optimal topology" computed by
 * Kruskal's algorithm over a dictionary-based union-find with path compression.
 */
module Topology {
  import opened Wrappers
  import opened Sorting

  // ---------------------------------------------------------------------------
  // Data

  /** A node of the designer: its id, its type (server or client) and its label. Its drawing position is left out. */
  datatype Node = Node(id: string, kind: string, caption: string)

  /** A link between the nodes with ids `source` and `target`. */
  datatype Connection = Connection(id: string, source: string, target: string, cost: int, bandwidth: int)

  /** The cost and bandwidth typed into the connection form. */
  datatype Params = Params(cost: int, bandwidth: int)

  /** The component's state that the handlers read and replace. */
  datatype Editor = Editor(
    nodes: seq<Node>,
    connections: seq<Connection>,
    selected: Option<string>,
    connectionMode: bool,
    source: Option<Node>,
    target: Option<Node>,
    editing: Option<Connection>,
    params: Params)

  /** The state the component starts in. */
  const Initial: Editor := Editor([], [], None, false, None, None, None, Params(100, 100))

  /** The ids of the nodes. */
  function NodeIds(nodes: seq<Node>): set<string>
  {
    set n | n in nodes :: n.id
  }

  // ---------------------------------------------------------------------------
  // Array.prototype.filter and the cost sum

  /** The elements of s that `keep` accepts, in their order. */
  function Filter<T(!new)>(s: seq<T>, keep: T -> bool): (r: seq<T>)
    ensures |r| <= |s|
    ensures forall x :: x in r <==> x in s && keep(x)
  {
    if s == [] then []
    else
      assert s == s[..|s| - 1] + [s[|s| - 1]];
      Filter(s[..|s| - 1], keep) + (if keep(s[|s| - 1]) then [s[|s| - 1]] else [])
  }

  /** Filtering a concatenation filters each part and keeps them in order. */
  lemma {:induction false} FilterAppend<T(!new)>(a: seq<T>, b: seq<T>, keep: T -> bool)
    ensures Filter(a + b, keep) == Filter(a, keep) + Filter(b, keep)
    decreases |b|
  {
    if b == [] {
      assert a + b == a;
    } else {
      var b' := b[..|b| - 1];
      assert (a + b)[..|a + b| - 1] == a + b';
      FilterAppend(a, b', keep);
    }
  }

  /** The running sum of the costs, as `reduce((sum, conn) => sum + conn.cost, 0)` adds them from the left. */
  function CostSum(cs: seq<Connection>): int
  {
    if cs == [] then 0 else CostSum(cs[..|cs| - 1]) + cs[|cs| - 1].cost
  }

  lemma {:induction false} CostSumAppend(a: seq<Connection>, b: seq<Connection>)
    ensures CostSum(a + b) == CostSum(a) + CostSum(b)
    decreases |b|
  {
    if b == [] {
      assert a + b == a;
    } else {
      var b' := b[..|b| - 1];
      assert (a + b)[..|a + b| - 1] == a + b';
      CostSumAppend(a, b');
    }
  }

  /** The cost of a list is the cost of what a filter keeps plus the cost of what it drops. */
  lemma {:induction false} CostSumSplits(cs: seq<Connection>, keep: Connection -> bool)
    ensures CostSum(cs) == CostSum(Filter(cs, keep)) + CostSum(Filter(cs, (c: Connection) => !keep(c)))
    decreases |cs|
  {
    if cs != [] {
      var init, last := cs[..|cs| - 1], cs[|cs| - 1];
      CostSumSplits(init, keep);
      CostSumAppend(Filter(init, keep), if keep(last) then [last] else []);
      CostSumAppend(Filter(init, (c: Connection) => !keep(c)), if !keep(last) then [last] else []);
      assert CostSum([last]) == CostSum([]) + last.cost;
    }
  }

  /** The total-cost metric: 0 with no connections, otherwise the sum of every connection's cost. */
  function TotalCost(connections: seq<Connection>): (r: int)
    ensures connections == [] ==> r == 0
    ensures (forall c :: c in connections ==> c.cost >= 0) ==> r >= 0
  {
    CostSumNonNegative(connections);
    if |connections| == 0 then 0 else CostSum(connections)
  }

  lemma {:induction false} CostSumNonNegative(cs: seq<Connection>)
    ensures (forall c :: c in cs ==> c.cost >= 0) ==> CostSum(cs) >= 0
    decreases |cs|
  {
    if cs != [] {
      CostSumNonNegative(cs[..|cs| - 1]);
      assert forall c :: c in cs[..|cs| - 1] ==> c in cs;
    }
  }

  // ---------------------------------------------------------------------------
  // The list edits

  /** c links a and b, in either direction. */
  predicate Joins(c: Connection, a: string, b: string)
  {
    (c.source == a && c.target == b) || (c.source == b && c.target == a)
  }

  /** The id a new connection gets: "conn-", the source id, "-", the target id. */
  function ConnectionId(source: string, target: string): (r: string)
    ensures |r| == 6 + |source| + |target| && r[5 + |source|] == '-'
    ensures r[..5] == "conn-" && r[5..5 + |source|] == source && r[|r| - |target|..] == target
  {
    "conn-" + source + "-" + target
  }

  /** addConnection: the connections with one more, from source to target, at the end. */
  function AddConnection(connections: seq<Connection>, source: string, target: string, cost: int, bandwidth: int): (r: seq<Connection>)
    ensures |r| == |connections| + 1 && r[..|connections|] == connections
    ensures var c := r[|connections|];
      c.id == ConnectionId(source, target) && c.source == source && c.target == target
      && c.cost == cost && c.bandwidth == bandwidth
  {
    connections + [Connection(ConnectionId(source, target), source, target, cost, bandwidth)]
  }

  /** Adding a connection adds its cost to the metric. */
  lemma AddConnectionCost(connections: seq<Connection>, source: string, target: string, cost: int, bandwidth: int)
    ensures TotalCost(AddConnection(connections, source, target, cost, bandwidth)) == TotalCost(connections) + cost
  {
    var c := Connection(ConnectionId(source, target), source, target, cost, bandwidth);
    assert (connections + [c])[..|connections|] == connections;
  }

  /**
   * The existing-connection lookup: the first connection linking a and b in either
   * direction, or None when there is none.
   */
  function FindExisting(connections: seq<Connection>, a: string, b: string): (r: Option<Connection>)
    ensures r.None? <==> forall c :: c in connections ==> !Joins(c, a, b)
    ensures r.Some? ==> r.value in connections && Joins(r.value, a, b)
  {
    if connections == [] then None
    else if Joins(connections[0], a, b) then Some(connections[0])
    else
      assert forall c :: c in connections ==> c == connections[0] || c in connections[1..];
      FindExisting(connections[1..], a, b)
  }

  /** What the lookup finds is the first linking connection: every one before it links another pair. */
  lemma {:induction false} FindExistingFirst(connections: seq<Connection>, a: string, b: string)
    requires FindExisting(connections, a, b).Some?
    ensures exists i ::
      && 0 <= i < |connections| && connections[i] == FindExisting(connections, a, b).value
      && forall j :: 0 <= j < i ==> !Joins(connections[j], a, b)
    decreases |connections|
  {
    if !Joins(connections[0], a, b) {
      var tail := connections[1..];
      FindExistingFirst(tail, a, b);
      var i :| 0 <= i < |tail| && tail[i] == FindExisting(tail, a, b).value
        && forall j :: 0 <= j < i ==> !Joins(tail[j], a, b);
      assert connections[i + 1] == tail[i];
      forall j | 0 <= j < i + 1
        ensures !Joins(connections[j], a, b)
      {
        if j > 0 {
          assert connections[j] == tail[j - 1];
        }
      }
    } else {
      assert connections[0] == FindExisting(connections, a, b).value;
    }
  }

  /** The lookup does not care which end was clicked first. */
  lemma {:induction false} FindExistingSymmetric(connections: seq<Connection>, a: string, b: string)
    ensures FindExisting(connections, a, b) == FindExisting(connections, b, a)
    decreases |connections|
  {
    if connections != [] {
      FindExistingSymmetric(connections[1..], a, b);
    }
  }

  /** After adding a link between a and b the lookup finds one: the earlier one, or the new one. */
  lemma AddThenFind(connections: seq<Connection>, a: string, b: string, cost: int, bandwidth: int)
    ensures var r := FindExisting(AddConnection(connections, a, b, cost, bandwidth), a, b);
      && r.Some?
      && (FindExisting(connections, a, b).None? ==> r.value == Connection(ConnectionId(a, b), a, b, cost, bandwidth))
  {
    var c := Connection(ConnectionId(a, b), a, b, cost, bandwidth);
    var r := FindExisting(connections + [c], a, b);
    assert Joins(c, a, b) && c in connections + [c];
    if FindExisting(connections, a, b).None? {
      assert r.value in connections + [c];
    }
  }

  /** The connections without those whose id is `id`. */
  function DropConnection(connections: seq<Connection>, id: string): (r: seq<Connection>)
    ensures forall c :: c in r <==> c in connections && c.id != id
  {
    Filter(connections, (c: Connection) => c.id != id)
  }

  /** handleDeleteConnection: drop every connection with that id; the others keep their order. */
  function DeleteConnection(e: Editor, id: string): (r: Editor)
    ensures r.connections == DropConnection(e.connections, id)
    ensures r == e.(connections := r.connections)
  {
    e.(connections := DropConnection(e.connections, id))
  }

  /** Deleting a connection takes exactly the cost of the connections with that id off the sum. */
  lemma DeleteConnectionCost(connections: seq<Connection>, id: string)
    ensures CostSum(connections) == CostSum(DropConnection(connections, id)) + CostSum(Filter(connections, (c: Connection) => c.id == id))
  {
    var keep := (c: Connection) => c.id != id;
    CostSumSplits(connections, keep);
    assert Filter(connections, (c: Connection) => !keep(c)) == Filter(connections, (c: Connection) => c.id == id) by {
      FilterSameTest(connections, (c: Connection) => !keep(c), (c: Connection) => c.id == id);
    }
  }

  /** Two tests that agree on every element filter alike. */
  lemma {:induction false} FilterSameTest<T(!new)>(s: seq<T>, f: T -> bool, g: T -> bool)
    requires forall x :: x in s ==> f(x) == g(x)
    ensures Filter(s, f) == Filter(s, g)
    decreases |s|
  {
    if s != [] {
      assert forall x :: x in s[..|s| - 1] ==> x in s;
      FilterSameTest(s[..|s| - 1], f, g);
    }
  }

  /** The connections without those touching the node `id`. */
  function DropTouching(connections: seq<Connection>, id: string): (r: seq<Connection>)
    ensures forall c :: c in r <==> c in connections && c.source != id && c.target != id
  {
    Filter(connections, (c: Connection) => c.source != id && c.target != id)
  }

  /**
   * handleDeleteNode: drop the nodes with that id and exactly the connections with it
   * at either end, keeping the order of the rest; clear the selection if it was that node.
   */
  function DeleteNode(e: Editor, id: string): (r: Editor)
    ensures forall n :: n in r.nodes <==> n in e.nodes && n.id != id
    ensures r.connections == DropTouching(e.connections, id)
    ensures r.selected == if e.selected == Some(id) then None else e.selected
    ensures r == e.(nodes := r.nodes, connections := r.connections, selected := r.selected)
  {
    e.(nodes := Filter(e.nodes, (n: Node) => n.id != id),
       connections := DropTouching(e.connections, id),
       selected := if e.selected == Some(id) then None else e.selected)
  }

  /** Every connection's fields but cost and bandwidth, which those with id `id` take from p. */
  function UpdateParams(connections: seq<Connection>, id: string, p: Params): (r: seq<Connection>)
    ensures |r| == |connections|
  {
    if connections == [] then []
    else
      var c := connections[|connections| - 1];
      UpdateParams(connections[..|connections| - 1], id, p)
        + [if c.id == id then c.(cost := p.cost, bandwidth := p.bandwidth) else c]
  }

  /**
   * The update changes cost and bandwidth on exactly the connections whose id matches,
   * and nothing else anywhere.
   */
  lemma {:induction false} UpdateParamsChanges(connections: seq<Connection>, id: string, p: Params)
    ensures forall i :: 0 <= i < |connections| ==>
      var c, c' := connections[i], UpdateParams(connections, id, p)[i];
      && c'.id == c.id && c'.source == c.source && c'.target == c.target
      && (c.id == id ==> c'.cost == p.cost && c'.bandwidth == p.bandwidth)
      && (c.id != id ==> c' == c)
    decreases |connections|
  {
    if connections != [] {
      UpdateParamsChanges(connections[..|connections| - 1], id, p);
    }
  }

  /** With ids unique, saving swaps that one connection's cost for the form's cost in the sum. */
  lemma {:induction false} UpdateParamsCost(connections: seq<Connection>, i: nat, p: Params)
    requires i < |connections|
    requires forall j :: 0 <= j < |connections| && j != i ==> connections[j].id != connections[i].id
    ensures CostSum(UpdateParams(connections, connections[i].id, p)) == CostSum(connections) - connections[i].cost + p.cost
    decreases |connections|
  {
    var n := |connections|;
    var id := connections[i].id;
    if i < n - 1 {
      UpdateParamsCost(connections[..n - 1], i, p);
    } else {
      UpdateParamsUnchanged(connections[..n - 1], id, p);
    }
  }

  /** An update whose id no connection has changes nothing. */
  lemma {:induction false} UpdateParamsUnchanged(connections: seq<Connection>, id: string, p: Params)
    requires forall c :: c in connections ==> c.id != id
    ensures UpdateParams(connections, id, p) == connections
    decreases |connections|
  {
    if connections != [] {
      var init := connections[..|connections| - 1];
      assert forall c :: c in init ==> c in connections;
      UpdateParamsUnchanged(init, id, p);
      assert connections == init + [connections[|connections| - 1]];
    }
  }

  // ---------------------------------------------------------------------------
  // The editor's handlers

  /**
   * handleNodeClick. Outside connection mode a click toggles the selection. In
   * connection mode the first click picks the source; a click on another node looks
   * the pair up: an existing link is opened for editing with its cost and bandwidth
   * in the form, otherwise a new link with the form's values is added and the pick
   * is cleared. A second click on the source does nothing.
   */
  function ClickNode(e: Editor, node: Node): (r: Editor)
    ensures !e.connectionMode ==> r == e.(selected := if e.selected == Some(node.id) then None else Some(node.id))
    ensures e.connectionMode && e.source.None? ==> r == e.(source := Some(node))
    ensures e.connectionMode && e.source.Some? && e.source.value.id == node.id ==> r == e
    ensures e.connectionMode && e.source.Some? && e.source.value.id != node.id ==>
      var found := FindExisting(e.connections, e.source.value.id, node.id);
      && (found.Some? ==> r == e.(target := Some(node), editing := found,
                                   params := Params(found.value.cost, found.value.bandwidth)))
      && (found.None? ==> r == e.(connections := AddConnection(e.connections, e.source.value.id, node.id, e.params.cost, e.params.bandwidth),
                                   source := None, target := None))
  {
    if e.connectionMode then
      match e.source
      case None => e.(source := Some(node))
      case Some(src) =>
        if node.id == src.id then e
        else
          match FindExisting(e.connections, src.id, node.id)
          case Some(existing) =>
            e.(target := Some(node), editing := Some(existing), params := Params(existing.cost, existing.bandwidth))
          case None =>
            e.(connections := AddConnection(e.connections, src.id, node.id, e.params.cost, e.params.bandwidth),
               source := None, target := None)
    else
      e.(selected := if e.selected == Some(node.id) then None else Some(node.id))
  }

  /**
   * handleSaveConnection: the connection being edited takes the form's cost and
   * bandwidth (every connection with its id does); without one, a picked source and
   * target get a new link. The editor is closed either way.
   */
  function SaveConnection(e: Editor): (r: Editor)
    ensures r.editing.None? && r.source.None? && r.target.None?
    ensures e.editing.Some? ==> r.connections == UpdateParams(e.connections, e.editing.value.id, e.params)
    ensures e.editing.None? && e.source.Some? && e.target.Some? ==>
      r.connections == AddConnection(e.connections, e.source.value.id, e.target.value.id, e.params.cost, e.params.bandwidth)
    ensures e.editing.None? && (e.source.None? || e.target.None?) ==> r.connections == e.connections
    ensures r == e.(connections := r.connections, editing := None, source := None, target := None)
  {
    var connections :=
      match e.editing
      case Some(edited) => UpdateParams(e.connections, edited.id, e.params)
      case None =>
        if e.source.Some? && e.target.Some? then
          AddConnection(e.connections, e.source.value.id, e.target.value.id, e.params.cost, e.params.bandwidth)
        else e.connections;
    e.(connections := connections, editing := None, source := None, target := None)
  }

  /** handleCancelEdit: close the editor and forget the picked nodes. */
  function CancelEdit(e: Editor): (r: Editor)
    ensures r == e.(editing := None, source := None, target := None)
  {
    e.(editing := None, source := None, target := None)
  }

  /** toggleConnectionMode: flip the mode and clear the selection, the picks and the editor. */
  function ToggleConnectionMode(e: Editor): (r: Editor)
    ensures r.connectionMode == !e.connectionMode
    ensures r == e.(connectionMode := r.connectionMode, selected := None, editing := None, source := None, target := None)
  {
    e.(connectionMode := !e.connectionMode, selected := None, editing := None, source := None, target := None)
  }

  // ---------------------------------------------------------------------------
  // What the handlers keep

  /** No self-loop, and no two connections link the same pair of nodes in either direction. */
  ghost predicate Simple(connections: seq<Connection>)
  {
    && (forall i :: 0 <= i < |connections| ==> connections[i].source != connections[i].target)
    && (forall i, j :: 0 <= i < j < |connections| ==> !Joins(connections[j], connections[i].source, connections[i].target))
  }

  /** Every connection runs between ids of nodes. */
  ghost predicate EndpointsIn(connections: seq<Connection>, ids: set<string>)
  {
    forall c :: c in connections ==> c.source in ids && c.target in ids
  }

  /**
   * The editor states the handlers can reach: the links form a simple graph over
   * the nodes, a picked source is a node and only exists in connection mode, and a
   * target is only kept while an existing link is open for editing.
   */
  ghost predicate Consistent(e: Editor)
  {
    && Simple(e.connections)
    && EndpointsIn(e.connections, NodeIds(e.nodes))
    && (e.source.Some? ==> e.connectionMode && e.source.value in e.nodes)
    && (e.target.Some? ==> e.editing.Some?)
  }

  lemma InitialConsistent()
    ensures Consistent(Initial)
  {
  }

  /** One more link keeps the graph simple when it is no self-loop and the lookup found none. */
  lemma SimpleAdd(connections: seq<Connection>, a: string, b: string, cost: int, bandwidth: int)
    requires Simple(connections) && a != b && FindExisting(connections, a, b).None?
    ensures Simple(AddConnection(connections, a, b, cost, bandwidth))
  {
    var r := AddConnection(connections, a, b, cost, bandwidth);
    forall i, j | 0 <= i < j < |r|
      ensures !Joins(r[j], r[i].source, r[i].target)
    {
      if j == |connections| {
        assert r[i] == connections[i] && r[i] in connections;
      } else {
        assert r[i] == connections[i] && r[j] == connections[j];
      }
    }
  }

  /** Simple, in terms of the last element. */
  lemma SimpleSnoc(init: seq<Connection>, c: Connection)
    ensures Simple(init + [c]) <==>
      Simple(init) && c.source != c.target && forall d :: d in init ==> !Joins(c, d.source, d.target)
  {
    var s := init + [c];
    if Simple(init) && c.source != c.target && forall d :: d in init ==> !Joins(c, d.source, d.target) {
      forall i, j | 0 <= i < j < |s|
        ensures !Joins(s[j], s[i].source, s[i].target)
      {
        assert s[i] == init[i] && s[i] in init;
      }
    }
    if Simple(s) {
      forall d | d in init
        ensures !Joins(c, d.source, d.target)
      {
        var i :| 0 <= i < |init| && init[i] == d;
        assert s[i] == d && s[|init|] == c;
      }
      assert forall i :: 0 <= i < |init| ==> s[i] == init[i];
      assert s[|init|] == c;
      forall i, j | 0 <= i < j < |init|
        ensures !Joins(init[j], init[i].source, init[i].target)
      {
        assert s[i] == init[i] && s[j] == init[j];
      }
    }
  }

  /** Dropping connections keeps the graph simple. */
  lemma {:induction false} SimpleFilter(connections: seq<Connection>, keep: Connection -> bool)
    requires Simple(connections)
    ensures Simple(Filter(connections, keep))
    decreases |connections|
  {
    if connections != [] {
      var init, last := connections[..|connections| - 1], connections[|connections| - 1];
      assert connections == init + [last];
      SimpleSnoc(init, last);
      SimpleFilter(init, keep);
      if keep(last) {
        SimpleSnoc(Filter(init, keep), last);
      }
    }
  }

  /** Changing costs and bandwidths keeps the graph simple and the endpoints where they were. */
  lemma SimpleUpdate(connections: seq<Connection>, id: string, p: Params, ids: set<string>)
    ensures Simple(connections) ==> Simple(UpdateParams(connections, id, p))
    ensures EndpointsIn(connections, ids) ==> EndpointsIn(UpdateParams(connections, id, p), ids)
  {
    UpdateParamsChanges(connections, id, p);
    var r := UpdateParams(connections, id, p);
    forall c | c in r
      ensures exists i :: 0 <= i < |connections| && c.source == connections[i].source && c.target == connections[i].target
    {
      var i :| 0 <= i < |r| && r[i] == c;
    }
  }

  /** A click on a node of the editor keeps the editor consistent. */
  lemma ClickKeepsConsistent(e: Editor, node: Node)
    requires Consistent(e) && node in e.nodes
    ensures Consistent(ClickNode(e, node))
  {
    if e.connectionMode && e.source.Some? && e.source.value.id != node.id {
      var src := e.source.value;
      if FindExisting(e.connections, src.id, node.id).None? {
        SimpleAdd(e.connections, src.id, node.id, e.params.cost, e.params.bandwidth);
      }
    }
  }

  /** In a consistent editor, Save only ever edits: it never adds a link and keeps the editor consistent. */
  lemma SaveKeepsConsistent(e: Editor)
    requires Consistent(e)
    ensures |SaveConnection(e).connections| == |e.connections|
    ensures Consistent(SaveConnection(e))
  {
    if e.editing.Some? {
      SimpleUpdate(e.connections, e.editing.value.id, e.params, NodeIds(e.nodes));
    }
  }

  /** Deleting a node, which the page offers only outside connection mode, keeps the editor consistent. */
  lemma DeleteNodeKeepsConsistent(e: Editor, id: string)
    requires Consistent(e) && !e.connectionMode
    ensures Consistent(DeleteNode(e, id))
  {
    var r := DeleteNode(e, id);
    SimpleFilter(e.connections, (c: Connection) => c.source != id && c.target != id);
    forall c | c in r.connections
      ensures c.source in NodeIds(r.nodes) && c.target in NodeIds(r.nodes)
    {
      var n :| n in e.nodes && n.id == c.source;
      var m :| m in e.nodes && m.id == c.target;
      assert n in r.nodes && m in r.nodes;
    }
  }

  lemma DeleteConnectionKeepsConsistent(e: Editor, id: string)
    requires Consistent(e)
    ensures Consistent(DeleteConnection(e, id))
  {
    SimpleFilter(e.connections, (c: Connection) => c.id != id);
  }

  lemma CancelAndToggleKeepConsistent(e: Editor)
    requires Consistent(e)
    ensures Consistent(CancelEdit(e)) && Consistent(ToggleConnectionMode(e))
  {
  }
}
