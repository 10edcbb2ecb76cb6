/** The two graph transforms of the Python script: `connect_neighbors` rewires every
    node to (at most) one pair of its neighbours, and `add_node_with_connections`
    attaches a fresh node to a sample of the existing ones. `random.sample` is a
    nondeterministic choice (`:|`). A networkx graph is a value here: a node set and
    a set of ordered pairs holding both directions of every undirected edge. */
module GraphTransforms {
  import opened Base

  datatype Graph = Graph(nodes: set<int>, edges: set<(int, int)>)

  /** An undirected graph: edges join nodes of the graph, in both directions. */
  predicate Valid(g: Graph)
  {
    && (forall e :: e in g.edges ==> e.0 in g.nodes && e.1 in g.nodes)
    && (forall e :: e in g.edges ==> (e.1, e.0) in g.edges)
  }

  /** `G.neighbors(v)`. */
  function Neighbors(g: Graph, v: int): set<int>
  {
    set u | u in g.nodes && (v, u) in g.edges
  }

  /** `add_edge(u, v)`: adds both endpoints and the edge; adding it again changes nothing. */
  function AddEdge(g: Graph, u: int, v: int): (r: Graph)
    ensures r.nodes == g.nodes + {u, v}
    ensures r.edges == g.edges + {(u, v), (v, u)}
    ensures Valid(g) ==> Valid(r)
  {
    Graph(g.nodes + {u, v}, g.edges + {(u, v), (v, u)})
  }

  // ---------------- connect_neighbors ----------------

  /** The edges between `v` and each node of `ns`, both directions. */
  function Spokes(v: int, ns: set<int>): set<(int, int)>
  {
    (set u | u in ns :: (v, u)) + (set u | u in ns :: (u, v))
  }

  /** The edges among `v`, `a` and `b`, both directions. */
  function Triangle(v: int, a: int, b: int): set<(int, int)>
  {
    {(v, a), (a, v), (v, b), (b, v), (a, b), (b, a)}
  }

  /** What one iteration of the loop adds to `H` for `node`: the triangle with the
      sampled pair, or else the edges to its neighbours (none, or the only one). */
  function StepEdges(g: Graph, node: int, pick: Option<(int, int)>): set<(int, int)>
  {
    match pick
    case Some(p) => Triangle(node, p.0, p.1)
    case None => Spokes(node, Neighbors(g, node))
  }

  /** `StepEdges` with the sample recorded for `node` in `picks`. */
  function EdgesFor(g: Graph, node: int, picks: map<int, (int, int)>): set<(int, int)>
  {
    StepEdges(g, node, if node in picks then Some(picks[node]) else None)
  }

  /** `random.sample(neighbors, 2)` returned two distinct neighbours of `v`. */
  predicate GoodPick(g: Graph, picks: map<int, (int, int)>, v: int)
  {
    v in picks && picks[v].0 != picks[v].1 && picks[v].0 in Neighbors(g, v) && picks[v].1 in Neighbors(g, v)
  }

  /** A sample is taken for every node of `done` with two or more neighbours (and no other). */
  predicate PicksFor(g: Graph, picks: map<int, (int, int)>, done: set<int>)
  {
    && (forall v :: v in picks ==> v in done && |Neighbors(g, v)| >= 2)
    && (forall v :: v in done && |Neighbors(g, v)| >= 2 ==> GoodPick(g, picks, v))
  }

  /** Reference definition of the result: `h` has the nodes of `g` and exactly the
      edges the loop adds for the nodes of `done`. */
  ghost predicate RewiredOn(g: Graph, picks: map<int, (int, int)>, done: set<int>, h: Graph)
  {
    && h.nodes == g.nodes
    && forall e :: e in h.edges <==> exists v :: v in done && e in EdgesFor(g, v, picks)
  }

  lemma SingletonSet(s: set<int>, u: int)
    requires |s| == 1 && u in s
    ensures s == {u}
  {
    if s != {u} {
      var w := Pick(s - {u});
      assert {u, w} <= s;
      assert |{u, w}| == 2;
      SubsetSize({u, w}, s);
    }
  }

  lemma {:induction false} SubsetSize(a: set<int>, b: set<int>)
    requires a <= b
    ensures |a| <= |b|
  {
    if a != {} {
      var x := Pick(a);
      SubsetSize(a - {x}, b - {x});
    }
  }

  /** One iteration of the loop: what it adds is `EdgesFor` of its node. */
  lemma StepAdds(g: Graph, picks: map<int, (int, int)>, done: set<int>, node: int, h: Graph, h': Graph, picks': map<int, (int, int)>)
    requires node !in done && node in g.nodes
    requires RewiredOn(g, picks, done, h)
    requires forall v :: v in picks ==> v in done
    requires picks' == picks || (node in picks' && picks' == picks[node := picks'[node]])
    requires h'.nodes == g.nodes && h'.edges == h.edges + EdgesFor(g, node, picks')
    ensures RewiredOn(g, picks', done + {node}, h')
  {
    forall v | v in done
      ensures EdgesFor(g, v, picks') == EdgesFor(g, v, picks)
    {
      assert v != node;
      assert v in picks' <==> v in picks;
    }
    forall e
      ensures e in h'.edges <==> exists v :: v in done + {node} && e in EdgesFor(g, v, picks')
    {
      if e in h'.edges && e !in EdgesFor(g, node, picks') {
        var v :| v in done && e in EdgesFor(g, v, picks);
        assert e in EdgesFor(g, v, picks');
      }
      if exists v :: v in done + {node} && e in EdgesFor(g, v, picks') {
        var v :| v in done + {node} && e in EdgesFor(g, v, picks');
        if v != node {
          assert e in EdgesFor(g, v, picks);
        }
      }
    }
  }

  /** One iteration of the loop of `connect_neighbors` for `node`: nothing for no
      neighbours, the edge to the only neighbour, or `random.sample(neighbors, 2)`
      (returned as `pick`) joined to `node` and to each other. */
  method ConnectNode(g: Graph, node: int, h: Graph) returns (h': Graph, ghost pick: Option<(int, int)>)
    requires h.nodes == g.nodes && node in g.nodes
    ensures h'.nodes == g.nodes
    ensures h'.edges == h.edges + StepEdges(g, node, pick)
    ensures pick.Some? <==> |Neighbors(g, node)| >= 2
    ensures pick.Some? ==> pick.value.0 != pick.value.1 && pick.value.0 in Neighbors(g, node) && pick.value.1 in Neighbors(g, node)
  {
    var neighbors := Neighbors(g, node);
    if |neighbors| == 0 {
      h', pick := h, None;
      assert neighbors == {};
      assert Spokes(node, neighbors) == {};
    } else if |neighbors| == 1 {
      // Witness that the set is non-empty, so the `:|` choice below exists.
      ghost var someU := Pick(neighbors);
      var u :| u in neighbors;
      SingletonSet(neighbors, u);
      h', pick := AddEdge(h, node, u), None;
      assert Spokes(node, neighbors) == {(node, u), (u, node)};
    } else {
      // Witness that the set is non-empty, so the `:|` choice below exists.
      ghost var someC0 := Pick(neighbors);
      var c0 :| c0 in neighbors;
      assert |neighbors - {c0}| >= 1;
      // Witness that the set is non-empty, so the `:|` choice below exists.
      ghost var someC1 := Pick(neighbors - {c0});
      var c1 :| c1 in neighbors - {c0};
      h' := AddEdge(h, node, c0);
      h' := AddEdge(h', node, c1);
      h' := AddEdge(h', c0, c1);
      pick := Some((c0, c1));
    }
  }

  /** Recording the sample of a new node keeps `picks` describing the nodes done. */
  lemma PicksGrow(g: Graph, picks: map<int, (int, int)>, done: set<int>, node: int, pick: Option<(int, int)>)
    requires PicksFor(g, picks, done) && node !in done
    requires pick.Some? <==> |Neighbors(g, node)| >= 2
    requires pick.Some? ==> pick.value.0 != pick.value.1 && pick.value.0 in Neighbors(g, node) && pick.value.1 in Neighbors(g, node)
    ensures PicksFor(g, if pick.Some? then picks[node := pick.value] else picks, done + {node})
  {
  }

  /** `connect_neighbors`: starts from the nodes of `G` and no edges, then runs
      `ConnectNode` for each node. `picks` records the samples. */
  method ConnectNeighbors(g: Graph) returns (h: Graph, ghost picks: map<int, (int, int)>)
    requires Valid(g)
    ensures PicksFor(g, picks, g.nodes)
    ensures RewiredOn(g, picks, g.nodes, h)
    ensures Valid(h) && h.nodes == g.nodes
    ensures forall v :: v in g.nodes ==> (Neighbors(h, v) == {} <==> Neighbors(g, v) == {})
  {
    h := Graph(g.nodes, {});
    picks := map[];
    var todo := g.nodes;
    while todo != {}
      invariant todo <= g.nodes
      invariant PicksFor(g, picks, g.nodes - todo)
      invariant RewiredOn(g, picks, g.nodes - todo, h)
      decreases |todo|
    {
      // Witness that the set is non-empty, so the `:|` choice below exists.
      ghost var someNode := Pick(todo);
      var node :| node in todo;
      ghost var before, done := h, g.nodes - todo;
      ghost var pick;
      h, pick := ConnectNode(g, node, h);
      ghost var picks' := if pick.Some? then picks[node := pick.value] else picks;
      PicksGrow(g, picks, done, node, pick);
      assert EdgesFor(g, node, picks') == StepEdges(g, node, pick);
      StepAdds(g, picks, done, node, before, h, picks');
      picks := picks';
      assert g.nodes - (todo - {node}) == done + {node};
      todo := todo - {node};
    }
    assert g.nodes - todo == g.nodes;
    RewiredEdges(g, picks, h);
    forall v | v in g.nodes
      ensures Neighbors(h, v) == {} <==> Neighbors(g, v) == {}
    {
      if Neighbors(g, v) == {} {
        RewiredKeepsIsolated(g, picks, h, v);
      } else {
        RewiredNoneIsolated(g, picks, h, v);
      }
    }
  }

  /** Every edge the loop adds for `w` joins `w` or a neighbour of `w` to `w` or a
      neighbour of `w`; it is an edge of `g` unless it joins two distinct neighbours. */
  lemma EdgesForShape(g: Graph, picks: map<int, (int, int)>, w: int, e: (int, int))
    requires Valid(g) && PicksFor(g, picks, g.nodes) && w in g.nodes
    requires e in EdgesFor(g, w, picks)
    ensures e.0 == w || e.0 in Neighbors(g, w)
    ensures e.1 == w || e.1 in Neighbors(g, w)
    ensures e.0 in Neighbors(g, w) || e.1 in Neighbors(g, w)
    ensures e in g.edges || (e.0 != e.1 && e.0 in Neighbors(g, w) && e.1 in Neighbors(g, w))
  {
    if w in picks {
      assert GoodPick(g, picks, w);
    } else if e.0 == w {
      assert e.1 in Neighbors(g, w);
    } else {
      assert e.0 in Neighbors(g, w) && e.1 == w;
      assert (w, e.0) in g.edges;
    }
  }

  /** `H` is an undirected graph on exactly the nodes of `G`, and each of its edges is
      an edge of `G` or joins two distinct neighbours of one node. */
  lemma RewiredEdges(g: Graph, picks: map<int, (int, int)>, h: Graph)
    requires Valid(g) && PicksFor(g, picks, g.nodes) && RewiredOn(g, picks, g.nodes, h)
    ensures Valid(h) && h.nodes == g.nodes
    ensures forall e :: e in h.edges ==>
              e in g.edges || exists w :: w in g.nodes && e.0 != e.1 && e.0 in Neighbors(g, w) && e.1 in Neighbors(g, w)
  {
    forall e | e in h.edges
      ensures e.0 in g.nodes && e.1 in g.nodes && (e.1, e.0) in h.edges
      ensures e in g.edges || exists w :: w in g.nodes && e.0 != e.1 && e.0 in Neighbors(g, w) && e.1 in Neighbors(g, w)
    {
      RewiredEdgeOrigin(g, picks, h, e);
    }
  }

  /** One edge of `H`, for `RewiredEdges`. */
  lemma RewiredEdgeOrigin(g: Graph, picks: map<int, (int, int)>, h: Graph, e: (int, int))
    requires Valid(g) && PicksFor(g, picks, g.nodes) && RewiredOn(g, picks, g.nodes, h)
    requires e in h.edges
    ensures e.0 in g.nodes && e.1 in g.nodes && (e.1, e.0) in h.edges
    ensures e in g.edges || exists w :: w in g.nodes && e.0 != e.1 && e.0 in Neighbors(g, w) && e.1 in Neighbors(g, w)
  {
    var w :| w in g.nodes && e in EdgesFor(g, w, picks);
    EdgesForShape(g, picks, w, e);
    assert (e.1, e.0) in EdgesFor(g, w, picks);
  }

  /** Every edge of `H` starts at a node that has a neighbour in `G`. */
  lemma RewiredEdgeStart(g: Graph, picks: map<int, (int, int)>, h: Graph, e: (int, int))
    requires Valid(g) && PicksFor(g, picks, g.nodes) && RewiredOn(g, picks, g.nodes, h)
    requires e in h.edges
    ensures Neighbors(g, e.0) != {}
  {
    var w :| w in g.nodes && e in EdgesFor(g, w, picks);
    EdgesForShape(g, picks, w, e);
    if e.0 == w {
      assert e.0 in Neighbors(g, w) || e.1 in Neighbors(g, w);
    } else {
      assert (e.0, w) in g.edges;
      assert w in Neighbors(g, e.0);
    }
  }

  /** A node isolated in `G` is isolated in `H`. */
  lemma RewiredKeepsIsolated(g: Graph, picks: map<int, (int, int)>, h: Graph, v: int)
    requires Valid(g) && PicksFor(g, picks, g.nodes) && RewiredOn(g, picks, g.nodes, h)
    requires v in g.nodes && Neighbors(g, v) == {}
    ensures Neighbors(h, v) == {}
  {
    forall e | e in h.edges
      ensures Neighbors(g, e.0) != {}
    {
      RewiredEdgeStart(g, picks, h, e);
    }
  }

  /** A node with one neighbour in `G` keeps that edge in `H`. */
  lemma RewiredKeepsOnlyNeighbour(g: Graph, picks: map<int, (int, int)>, h: Graph, v: int, u: int)
    requires PicksFor(g, picks, g.nodes) && RewiredOn(g, picks, g.nodes, h)
    requires v in g.nodes && Neighbors(g, v) == {u}
    ensures (v, u) in h.edges && u in Neighbors(h, v)
  {
    assert (v, u) in EdgesFor(g, v, picks);
  }

  /** A node with two or more neighbours in `G` is joined in `H` to two distinct ones,
      which are joined to each other. */
  lemma RewiredJoinsPair(g: Graph, picks: map<int, (int, int)>, h: Graph, v: int)
    requires PicksFor(g, picks, g.nodes) && RewiredOn(g, picks, g.nodes, h)
    requires v in g.nodes && |Neighbors(g, v)| >= 2
    ensures exists a, b :: a != b && a in Neighbors(g, v) && b in Neighbors(g, v)
              && (v, a) in h.edges && (v, b) in h.edges && (a, b) in h.edges
  {
    assert GoodPick(g, picks, v);
    var a, b := picks[v].0, picks[v].1;
    assert (v, a) in EdgesFor(g, v, picks) && (v, b) in EdgesFor(g, v, picks) && (a, b) in EdgesFor(g, v, picks);
  }

  /** No node with a neighbour in `G` is isolated in `H`. */
  lemma RewiredNoneIsolated(g: Graph, picks: map<int, (int, int)>, h: Graph, v: int)
    requires PicksFor(g, picks, g.nodes) && RewiredOn(g, picks, g.nodes, h)
    requires v in g.nodes && Neighbors(g, v) != {}
    ensures Neighbors(h, v) != {}
  {
    if |Neighbors(g, v)| >= 2 {
      RewiredJoinsPair(g, picks, h, v);
      var a, b :| a != b && a in Neighbors(g, v) && b in Neighbors(g, v)
                  && (v, a) in h.edges && (v, b) in h.edges && (a, b) in h.edges;
      assert a in Neighbors(h, v);
    } else {
      var u := Pick(Neighbors(g, v));
      SingletonSet(Neighbors(g, v), u);
      RewiredKeepsOnlyNeighbour(g, picks, h, v, u);
    }
  }

  // ---------------- add_node_with_connections ----------------

  /** `random.sample` with a negative sample size raises `ValueError`. */
  datatype SampleError = NegativeSampleSize

  /** `max(H.nodes)`. */
  method MaxNode(nodes: set<int>) returns (m: int)
    requires nodes != {}
    ensures m in nodes && forall x :: x in nodes ==> x <= m
  {
    // Witness that the set is non-empty, so the `:|` choice below exists.
    ghost var some := Pick(nodes);
    m :| m in nodes;
    var todo := nodes - {m};
    assert nodes - todo == {m};
    while todo != {}
      invariant todo <= nodes && m in nodes
      invariant forall x :: x in nodes - todo ==> x <= m
      decreases |todo|
    {
      // Witness that the set is non-empty, so the `:|` choice below exists.
      ghost var someX := Pick(todo);
      var x :| x in todo;
      if x > m {
        m := x;
      }
      assert nodes - (todo - {x}) == (nodes - todo) + {x};
      todo := todo - {x};
    }
    assert nodes - todo == nodes;
  }

  /** The id `add_node_with_connections` gives a new node: 0 for an empty graph,
      otherwise one more than the largest id. */
  predicate IsNextId(nodes: set<int>, n: int)
  {
    if nodes == {} then n == 0 else n - 1 in nodes && forall x :: x in nodes ==> x < n
  }

  /** The next id is not yet a node, and it is determined by the node set. */
  lemma NextIdFresh(nodes: set<int>, n: int, n': int)
    requires IsNextId(nodes, n) && IsNextId(nodes, n')
    ensures n !in nodes && n == n'
  {
    if nodes != {} {
      assert n - 1 < n' && n' - 1 < n;
    }
  }

  /** `random.sample(population, k)` can return `k` distinct elements when `k` is at most the size. */
  lemma {:induction false} SampleExists(s: set<int>, k: nat)
    requires k <= |s|
    ensures exists t :: t <= s && |t| == k
  {
    if k == 0 {
      var none: set<int> := {};
      assert none <= s && |none| == 0;
    } else {
      var x := Pick(s);
      SampleExists(s - {x}, k - 1);
      var t :| t <= s - {x} && |t| == k - 1;
      assert t + {x} <= s && |t + {x}| == k;
    }
  }

  lemma SpokesAdd(v: int, ns: set<int>, u: int)
    ensures Spokes(v, ns + {u}) == Spokes(v, ns) + {(v, u), (u, v)}
  {
  }

  /** Joining a node outside `g` to `targets` makes `targets` its neighbour set and
      keeps the graph undirected. */
  lemma AttachedNeighbors(g: Graph, n: int, targets: set<int>, h: Graph)
    requires Valid(g) && n !in g.nodes && targets <= g.nodes
    requires h.nodes == g.nodes + {n} && h.edges == g.edges + Spokes(n, targets)
    ensures Neighbors(h, n) == targets
    ensures Valid(h)
  {
    forall u | u in Neighbors(h, n)
      ensures u in targets
    {
      assert (n, u) !in g.edges;
      assert n !in targets;
    }
    forall u | u in targets
      ensures u in Neighbors(h, n)
    {
      assert (n, u) in Spokes(n, targets);
    }
    forall e | e in h.edges
      ensures e.0 in h.nodes && e.1 in h.nodes && (e.1, e.0) in h.edges
    {
      if e !in g.edges {
        assert e.0 == n || e.1 == n;
      }
    }
  }

  /** `add_node_with_connections`: copies `G`, adds the node `added` (0 or max + 1) and
      joins it to `num_connections` distinct sampled nodes of `G`, or to all of them
      when there are fewer; a negative count makes `random.sample` raise. */
  method AddNodeWithConnections(g: Graph, numConnections: int) returns (r: Result<Graph, SampleError>, ghost added: int)
    requires Valid(g)
    ensures r.Failure? <==> numConnections < 0
    ensures r.Success? ==>
              var h := r.value;
              && IsNextId(g.nodes, added) && added !in g.nodes
              && h.nodes == g.nodes + {added}
              && Neighbors(h, added) <= g.nodes
              && |Neighbors(h, added)| == (if numConnections <= |g.nodes| then numConnections else |g.nodes|)
              && h.edges == g.edges + Spokes(added, Neighbors(h, added))
              && Valid(h)
  {
    var h := g;
    var newNode := NewNodeId(h.nodes);
    added := newNode;
    h := Graph(h.nodes + {newNode}, h.edges);
    var others := h.nodes - {newNode};
    assert others == g.nodes;
    var targets: set<int>;
    if |h.nodes| - 1 >= numConnections {
      if numConnections < 0 {
        return Failure(NegativeSampleSize), added;
      }
      SampleExists(others, numConnections);
      targets :| targets <= others && |targets| == numConnections;
    } else {
      targets := others;
    }
    h := ConnectTo(h, newNode, targets);
    AttachedNeighbors(g, newNode, targets, h);
    return Success(h), added;
  }

  /** The id choice of `add_node_with_connections`. */
  method NewNodeId(nodes: set<int>) returns (n: int)
    ensures IsNextId(nodes, n) && n !in nodes
  {
    if |nodes| == 0 {
      n := 0;
    } else {
      var m := MaxNode(nodes);
      n := m + 1;
    }
    NextIdFresh(nodes, n, n);
  }

  /** The `for t in targets: H.add_edge(new_node, t)` loop. */
  method ConnectTo(h: Graph, n: int, targets: set<int>) returns (h': Graph)
    requires n in h.nodes && targets <= h.nodes
    ensures h'.nodes == h.nodes && h'.edges == h.edges + Spokes(n, targets)
  {
    h' := h;
    var todo := targets;
    assert targets - todo == {};
    while todo != {}
      invariant todo <= targets
      invariant h'.nodes == h.nodes
      invariant h'.edges == h.edges + Spokes(n, targets - todo)
      decreases |todo|
    {
      // Witness that the set is non-empty, so the `:|` choice below exists.
      ghost var someT := Pick(todo);
      var t :| t in todo;
      h' := AddEdge(h', n, t);
      assert targets - (todo - {t}) == (targets - todo) + {t};
      SpokesAdd(n, targets - todo, t);
      todo := todo - {t};
    }
    assert targets - todo == targets;
  }
}
