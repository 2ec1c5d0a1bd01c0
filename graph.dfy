/** Mission nodes and the mission graph. The Graph and GraphNode classes are
    not part of this model: a graph here is its node values in insertion order
    plus its undirected weighted edges in insertion order, and a node is
    identified by its position (MissionNodeData has no equality of its own, so
    FindByValue finds exactly the node just added). */
module MissionGraph {
  import opened Geometry

  datatype MissionNodeType = Entrance | Key | Lock | Exploration | Goal

  /** One of the Mechanics enum values (the enum is not part of this model). */
  datatype Mechanic = Mechanic(id: nat)

  /** MissionNodeData: keyNr defaults to -1 and the mechanics to none. */
  datatype MissionNodeData = MissionNodeData(kind: MissionNodeType, keyNr: int, challengeMechanics: seq<Mechanic>)

  datatype Edge = Edge(a: nat, b: nat, weight: int)

  datatype Graph = Graph(nodes: seq<MissionNodeData>, edges: seq<Edge>)

  const EmptyGraph := Graph([], [])

  /** Graph.AddNode: the new node gets the next position. */
  function AddNode(g: Graph, v: MissionNodeData): (r: Graph)
    ensures |r.nodes| == |g.nodes| + 1 && r.nodes[|g.nodes|] == v
    ensures r.nodes[..|g.nodes|] == g.nodes && r.edges == g.edges
  {
    Graph(g.nodes + [v], g.edges)
  }

  /** Graph.AddUndirectedEdge(from, to, cost). */
  function AddUndirectedEdge(g: Graph, from: nat, to: nat, cost: int): (r: Graph)
    ensures r.nodes == g.nodes && r.edges == g.edges + [Edge(from, to, cost)]
  {
    Graph(g.nodes, g.edges + [Edge(from, to, cost)])
  }

  /** Every edge joins two nodes of the graph. */
  predicate WellFormed(g: Graph) {
    forall e :: e in g.edges ==> e.a < |g.nodes| && e.b < |g.nodes|
  }

  /** GraphNode.Neighbors: the other end of every edge at n, in edge order. */
  function Neighbors(edges: seq<Edge>, n: nat): (r: seq<nat>)
    ensures forall m :: m in r <==> exists e :: e in edges && ((e.a == n && e.b == m) || (e.b == n && e.a == m))
  {
    if edges == [] then []
    else
      var e := edges[|edges| - 1];
      var rest := edges[..|edges| - 1];
      assert edges == rest + [e];
      Neighbors(rest, n) + (if e.a == n then [e.b] else []) + (if e.b == n then [e.a] else [])
  }

  /** Neighbours of a node of a well-formed graph are nodes of the graph. */
  lemma NeighborsInGraph(g: Graph, n: nat)
    requires WellFormed(g)
    ensures forall m :: m in Neighbors(g.edges, n) ==> m < |g.nodes|
  {
  }

  /** Edges e and f join the same two nodes. */
  predicate SameEnds(e: Edge, f: Edge) {
    (e.a == f.a && e.b == f.b) || (e.a == f.b && e.b == f.a)
  }

  /** No edge is a loop and no two edges join the same two nodes. */
  predicate SimpleEdges(edges: seq<Edge>) {
    (forall e :: e in edges ==> e.a != e.b) &&
    (forall i, j :: 0 <= i < j < |edges| ==> !SameEnds(edges[i], edges[j]))
  }

  /** Every node of g has a duplicate-free neighbour list. */
  predicate SimpleNeighbors(g: Graph) {
    forall v :: 0 <= v < |g.nodes| ==> Distinct(Neighbors(g.edges, v))
  }

  /** Without loops and parallel edges, no node is listed twice as a neighbour. */
  lemma {:induction false} NeighborsDistinct(edges: seq<Edge>, n: nat)
    requires SimpleEdges(edges)
    ensures Distinct(Neighbors(edges, n))
  {
    if edges != [] {
      var e := edges[|edges| - 1];
      var rest := edges[..|edges| - 1];
      assert SimpleEdges(rest) by {
        forall f | f in rest ensures f.a != f.b {
          var i :| 0 <= i < |rest| && rest[i] == f;
          assert edges[i] == f;
        }
        forall i, j | 0 <= i < j < |rest| ensures !SameEnds(rest[i], rest[j]) {
          assert rest[i] == edges[i] && rest[j] == edges[j];
        }
      }
      NeighborsDistinct(rest, n);
      var r := Neighbors(rest, n);
      assert e in edges;
      if e.a == n || e.b == n {
        var x := if e.a == n then e.b else e.a;
        assert Neighbors(edges, n) == r + [x];
        assert x !in r by {
          forall f | f in rest ensures !((f.a == n && f.b == x) || (f.b == n && f.a == x)) {
            var i :| 0 <= i < |rest| && rest[i] == f;
            assert edges[i] == f && !SameEnds(edges[i], edges[|edges| - 1]);
          }
        }
      } else {
        assert Neighbors(edges, n) == r;
      }
    }
  }

  /** A graph with simple edges has duplicate-free neighbour lists. */
  lemma SimpleGraph(g: Graph)
    requires SimpleEdges(g.edges)
    ensures SimpleNeighbors(g)
  {
    forall v | 0 <= v < |g.nodes| ensures Distinct(Neighbors(g.edges, v)) {
      NeighborsDistinct(g.edges, v);
    }
  }

  /** The edges of a path that visits `order` one node after the other, each
      of weight 1: edge i joins order[i] to order[i + 1]. */
  function Chain(order: seq<nat>): seq<Edge> {
    if |order| <= 1 then []
    else seq(|order| - 1, i requires 0 <= i < |order| - 1 => Edge(order[i], order[i + 1], 1))
  }

  /** A chain through distinct nodes has no loop and no parallel edge. */
  lemma ChainSimple(order: seq<nat>)
    requires Distinct(order)
    ensures SimpleEdges(Chain(order))
  {
    var c := Chain(order);
    forall e | e in c ensures e.a != e.b {
      var i :| 0 <= i < |c| && c[i] == e;
    }
    forall i, j | 0 <= i < j < |c| ensures !SameEnds(c[i], c[j]) {
      assert c[i] == Edge(order[i], order[i + 1], 1) && c[j] == Edge(order[j], order[j + 1], 1);
    }
  }

  /** Whether some position before j holds Key(n). */
  predicate KeyPlacedBefore(g: seq<MissionNodeData>, order: seq<nat>, n: int, j: int)
    requires forall i :: 0 <= i < |order| ==> order[i] < |g|
    requires j <= |order|
  {
    exists i :: 0 <= i < j && g[order[i]].kind == Key && g[order[i]].keyNr == n
  }

  /** Every Lock(n) in the construction order comes after a Key(n), unless n
      is among `preset`, the key numbers already recorded before construction. */
  predicate KeysBeforeLocks(g: seq<MissionNodeData>, order: seq<nat>, preset: seq<int>)
    requires forall i :: 0 <= i < |order| ==> order[i] < |g|
  {
    forall j :: 0 <= j < |order| && g[order[j]].kind == Lock ==>
      g[order[j]].keyNr in preset || KeyPlacedBefore(g, order, g[order[j]].keyNr, j)
  }

  /** Key(t) as AddChallengeNodes creates it, with its random mechanics set. */
  predicate IsKeyNode(v: MissionNodeData, t: int, mechanics: seq<Mechanic>, maxMechanics: int) {
    v.kind == Key && v.keyNr == t && 1 <= |v.challengeMechanics| &&
    (|v.challengeMechanics| < maxMechanics || |v.challengeMechanics| == 1) &&
    forall m :: m in v.challengeMechanics ==> m in mechanics
  }

  /** The nodes GenerateMissionGraph creates: the entrance, Key(t) and Lock(t)
      for t < c, e exploration nodes, the goal. */
  ghost predicate MissionLayout(nodes: seq<MissionNodeData>, c: nat, e: nat, mechanics: seq<Mechanic>, maxMechanics: int) {
    |nodes| == 2 * c + e + 2 &&
    nodes[0] == MissionNodeData(Entrance, -1, []) &&
    nodes[2 * c + e + 1] == MissionNodeData(Goal, -1, []) &&
    (forall t :: 0 <= t < c ==>
      IsKeyNode(nodes[1 + 2 * t], t, mechanics, maxMechanics) && nodes[2 + 2 * t] == MissionNodeData(Lock, t, [])) &&
    (forall t :: 2 * c + 1 <= t < 2 * c + e + 1 ==> nodes[t] == MissionNodeData(Exploration, -1, []))
  }
}
