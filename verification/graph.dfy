/** The vertex/edge management of the Graph ADT of CS232_Proj3, as far as the
    header and the driver show it: the vertex and edge records with their
    defaults and name-only comparisons, the adjacency structure, the add /
    delete / test operations, and the integer result codes the driver reads,
    including the four-way outcome of the bidirectional operations and the
    three sentinels of ShortestDistance. Vertex names are strings and weights
    are integers, as in the driver's Graph<string,int>. */
module GraphAdt {

  /** The "infinity" distance of a fresh vertex. */
  const INF: real := 9999.0

  /** edgeRep: the destination's name and the weight. */
  datatype Edge = Edge(name: string, weight: int)

  /** vertex: its name, traversal flag, predecessor and current distance for
      path finding, and its list of outgoing edges. */
  datatype Vertex = Vertex(name: string, visited: int, predecessor: string, currDist: real,
                           edgeList: seq<Edge>)

  /** The vertex collection, keyed by name. */
  datatype Graph = Graph(vertices: map<string, Vertex>)

  // ---------------------------------------------------------------------
  // Names and their order
  // ---------------------------------------------------------------------

  /** std::string operator<: lexicographic order on character codes. */
  predicate StringLess(a: string, b: string)
  {
    if |b| == 0 then false
    else if |a| == 0 then true
    else if a[0] != b[0] then a[0] < b[0]
    else StringLess(a[1..], b[1..])
  }

  /** No string precedes itself. */
  lemma {:induction false} StringLessIrreflexive(a: string)
    ensures !StringLess(a, a)
  {
    if |a| != 0 {
      StringLessIrreflexive(a[1..]);
    }
  }

  /** Exactly one of a < b, a == b, b < a holds. */
  lemma {:induction false} StringTrichotomy(a: string, b: string)
    ensures StringLess(a, b) || a == b || StringLess(b, a)
    ensures !(StringLess(a, b) && StringLess(b, a))
    ensures !StringLess(a, a)
  {
    StringLessIrreflexive(a);
    if |a| != 0 && |b| != 0 && a[0] == b[0] {
      StringTrichotomy(a[1..], b[1..]);
      if a[1..] == b[1..] {
        assert a == [a[0]] + a[1..] && b == [b[0]] + b[1..];
      }
    }
  }

  /** The order is transitive. */
  lemma {:induction false} StringLessTransitive(a: string, b: string, c: string)
    requires StringLess(a, b) && StringLess(b, c)
    ensures StringLess(a, c)
  {
    if |a| != 0 && a[0] == b[0] && b[0] == c[0] {
      StringLessTransitive(a[1..], b[1..], c[1..]);
    }
  }

  // ---------------------------------------------------------------------
  // The records' comparison operators
  // ---------------------------------------------------------------------

  /** edgeRep::operator== */
  predicate EdgeEq(x: Edge, y: Edge) { x.name == y.name }
  /** edgeRep::operator< */
  predicate EdgeLess(x: Edge, y: Edge) { StringLess(x.name, y.name) }
  /** vertex::operator== */
  predicate VertexEq(x: Vertex, y: Vertex) { x.name == y.name }
  /** vertex::operator< */
  predicate VertexLess(x: Vertex, y: Vertex) { StringLess(x.name, y.name) }

  /** Edge comparisons see the destination name only: changing the weights
      changes no comparison, and the edges are totally ordered by name, so
      two edges are either ordered one way, the other way, or equal. */
  lemma EdgeComparisonIgnoresWeight(x: Edge, y: Edge, wx: int, wy: int)
    ensures EdgeEq(x.(weight := wx), y.(weight := wy)) == EdgeEq(x, y)
    ensures EdgeLess(x.(weight := wx), y.(weight := wy)) == EdgeLess(x, y)
    ensures EdgeLess(x, y) || EdgeEq(x, y) || EdgeLess(y, x)
    ensures !(EdgeLess(x, y) && EdgeLess(y, x)) && !(EdgeLess(x, y) && EdgeEq(x, y))
  {
    StringTrichotomy(x.name, y.name);
  }

  /** Vertex comparisons see the name only: the flags, distance, predecessor
      and edge list take no part, and vertices are totally ordered by name. */
  lemma VertexComparisonIgnoresFields(x: Vertex, y: Vertex, x': Vertex, y': Vertex)
    requires x'.name == x.name && y'.name == y.name
    ensures VertexEq(x', y') == VertexEq(x, y) && VertexLess(x', y') == VertexLess(x, y)
    ensures VertexLess(x, y) || VertexEq(x, y) || VertexLess(y, x)
    ensures !(VertexLess(x, y) && VertexLess(y, x)) && !(VertexLess(x, y) && VertexEq(x, y))
  {
    StringTrichotomy(x.name, y.name);
  }

  // ---------------------------------------------------------------------
  // Structure
  // ---------------------------------------------------------------------

  /** The vertex constructor's defaults. */
  function NewVertex(n: string): Vertex
  {
    Vertex(n, 0, n, INF, [])
  }

  /** The destination names of an edge list, in list order. */
  function Targets(es: seq<Edge>): (ns: seq<string>)
    ensures |ns| == |es|
    ensures forall i :: 0 <= i < |es| ==> ns[i] == es[i].name
  {
    if es == [] then [] else [es[0].name] + Targets(es[1..])
  }

  /** The directed edge <a,b> is in the graph. */
  predicate HasEdge(g: Graph, a: string, b: string)
  {
    a in g.vertices && b in Targets(g.vertices[a].edgeList)
  }

  /** No name is repeated in a list. */
  predicate Distinct(ns: seq<string>)
  {
    forall i, j :: 0 <= i < j < |ns| ==> ns[i] != ns[j]
  }

  /** The invariant of the vertex collection: every vertex is stored under its
      own name, no edge list names a destination twice, and every edge leads
      to a vertex of the graph. */
  predicate WellFormed(g: Graph)
  {
    && (forall n :: n in g.vertices ==> g.vertices[n].name == n)
    && (forall n :: n in g.vertices ==> Distinct(Targets(g.vertices[n].edgeList)))
    && (forall a, b :: a in g.vertices && b in Targets(g.vertices[a].edgeList) ==> b in g.vertices)
  }

  /** Two records of a vertex that agree on every field but the edge list. */
  predicate SameButEdges(x: Vertex, y: Vertex)
  {
    x.name == y.name && x.visited == y.visited && x.predecessor == y.predecessor
    && x.currDist == y.currDist
  }

  /** Every vertex of g outside `touched` has the same record in g'. */
  predicate RecordsKept(g: Graph, g': Graph, touched: set<string>)
  {
    forall n :: n in g.vertices && n !in touched ==> n in g'.vertices && g'.vertices[n] == g.vertices[n]
  }

  /** y is x with the edge e added when `added` holds: every other field is
      kept, and y's edges, weights included, are x's plus e. */
  ghost predicate EdgeJoined(x: Vertex, y: Vertex, e: Edge, added: bool)
  {
    SameButEdges(x, y) && (forall f :: f in y.edgeList <==> f in x.edgeList || (added && f == e))
  }

  /** y is x without its edges to `target`: every other field is kept, and
      every other edge, weight included, stays. */
  ghost predicate EdgesDropped(x: Vertex, y: Vertex, target: string)
  {
    SameButEdges(x, y) && (forall f :: f in y.edgeList <==> f in x.edgeList && f.name != target)
  }

  /** The empty graph of the constructor. */
  function EmptyGraph(): (g: Graph)
    ensures WellFormed(g) && VertexCount(g) == 0
  {
    Graph(map[])
  }

  /** vertexCount */
  function VertexCount(g: Graph): nat
  {
    |g.vertices|
  }

  // ---------------------------------------------------------------------
  // Result codes
  // ---------------------------------------------------------------------

  /** The code the driver treats as failure for the single-direction
      operations and the tests. Any other value reads as success; the model
      returns 0. */
  const Failure: int := -1
  const Success: int := 0

  /** The four outcomes of AddBiDirEdge. */
  datatype BiAdd = BothAdded | ForwardAddedBackwardExisted | ForwardExistedBackwardAdded | BothExisted

  /** The four outcomes of DeleteBiDirEdge. */
  datatype BiDelete = BothDeleted | ForwardDeletedBackwardAbsent | ForwardAbsentBackwardDeleted | NeitherExisted

  /** The outcomes of ShortestDistance. */
  datatype DistanceOutcome = SourceMissing | TargetMissing | NoPath | Distance(d: real)

  function BiAddCode(o: BiAdd): int
  {
    match o
    case BothExisted => -3
    case ForwardAddedBackwardExisted => -2
    case ForwardExistedBackwardAdded => -1
    case BothAdded => Success
  }

  /** How the driver reads AddBiDirEdge's code. */
  function DriverReadsBiAdd(code: int): BiAdd
  {
    if code == -3 then BothExisted
    else if code == -2 then ForwardAddedBackwardExisted
    else if code == -1 then ForwardExistedBackwardAdded
    else BothAdded
  }

  function BiDeleteCode(o: BiDelete): int
  {
    match o
    case NeitherExisted => -3
    case ForwardDeletedBackwardAbsent => -2
    case ForwardAbsentBackwardDeleted => -1
    case BothDeleted => Success
  }

  /** How the driver reads DeleteBiDirEdge's code. */
  function DriverReadsBiDelete(code: int): BiDelete
  {
    if code == -3 then NeitherExisted
    else if code == -2 then ForwardDeletedBackwardAbsent
    else if code == -1 then ForwardAbsentBackwardDeleted
    else BothDeleted
  }

  function DistanceCode(o: DistanceOutcome): real
  {
    match o
    case SourceMissing => -1.0
    case TargetMissing => -2.0
    case NoPath => -3.0
    case Distance(d) => d
  }

  /** How the driver reads ShortestDistance's value. */
  function DriverReadsDistance(code: real): DistanceOutcome
  {
    if code == -1.0 then SourceMissing
    else if code == -2.0 then TargetMissing
    else if code == -3.0 then NoPath
    else Distance(code)
  }

  /** The driver tells the four bidirectional outcomes apart. */
  lemma BiCodesDistinguishable(a: BiAdd, d: BiDelete)
    ensures DriverReadsBiAdd(BiAddCode(a)) == a
    ensures DriverReadsBiDelete(BiDeleteCode(d)) == d
  {
  }

  /** The three sentinels and every non-negative distance are told apart. */
  lemma DistanceCodesDistinguishable(o: DistanceOutcome)
    requires o.Distance? ==> o.d >= 0.0
    ensures DriverReadsDistance(DistanceCode(o)) == o
  {
  }

  // ---------------------------------------------------------------------
  // Operations
  // ---------------------------------------------------------------------

  /** isVertex */
  function IsVertex(g: Graph, v: string): (code: int)
    ensures code == Failure <==> v !in g.vertices
  {
    if v in g.vertices then Success else Failure
  }

  /** AddVertex: a fresh vertex with the default fields, or -1 when the name
      is taken (and no change). */
  function AddVertex(g: Graph, v: string): (res: (Graph, int))
    requires WellFormed(g)
    ensures WellFormed(res.0)
    ensures res.1 == Failure <==> v in g.vertices
    ensures res.1 == Failure ==> res.0 == g
    ensures res.1 != Failure ==>
      && res.0.vertices.Keys == g.vertices.Keys + {v}
      && res.0.vertices[v] == Vertex(v, 0, v, INF, [])
      && (forall n :: n in g.vertices ==> res.0.vertices[n] == g.vertices[n])
  {
    if v in g.vertices then (g, Failure)
    else
      var g' := Graph(g.vertices[v := NewVertex(v)]);
      AddVertexFacts(g, v, g');
      (g', Success)
  }

  /** A fresh vertex has no edges, so the invariant survives adding it. */
  lemma AddVertexFacts(g: Graph, v: string, g': Graph)
    requires WellFormed(g) && v !in g.vertices
    requires g' == Graph(g.vertices[v := NewVertex(v)])
    ensures WellFormed(g')
  {
    assert Targets(g'.vertices[v].edgeList) == [];
    forall a, b | a in g'.vertices && b in Targets(g'.vertices[a].edgeList)
      ensures b in g'.vertices
    {
      assert a != v && HasEdge(g, a, b);
    }
  }

  /** Targets distributes over concatenation. */
  lemma TargetsAppend(a: seq<Edge>, b: seq<Edge>)
    ensures Targets(a + b) == Targets(a) + Targets(b)
  {
    assert forall i :: 0 <= i < |a + b| ==> Targets(a + b)[i] == (Targets(a) + Targets(b))[i];
  }

  /** A list with a head is distinct when its tail is and the head is new. */
  lemma DistinctCons(x: string, ns: seq<string>)
    ensures Distinct([x] + ns) <==> x !in ns && Distinct(ns)
  {
    if x !in ns && Distinct(ns) {
      forall i, j | 0 <= i < j < |[x] + ns|
        ensures ([x] + ns)[i] != ([x] + ns)[j]
      {
        if i > 0 { assert ([x] + ns)[i] == ns[i - 1]; }
        else { assert ([x] + ns)[j] == ns[j - 1]; }
      }
    }
    if Distinct([x] + ns) {
      forall i, j | 0 <= i < j < |ns| ensures ns[i] != ns[j] {
        assert ns[i] == ([x] + ns)[i + 1] && ns[j] == ([x] + ns)[j + 1];
      }
    }
    if x in ns {
      var k :| 0 <= k < |ns| && ns[k] == x;
      assert ([x] + ns)[0] == ([x] + ns)[k + 1];
    }
  }

  /** A distinct list stays distinct when a new name is appended. */
  lemma DistinctAppend(ns: seq<string>, x: string)
    requires Distinct(ns) && x !in ns
    ensures Distinct(ns + [x])
  {
  }

  /** Removes every edge to `target` from a list. */
  function RemoveEdgesTo(es: seq<Edge>, target: string): (es': seq<Edge>)
    ensures forall e :: e in es' <==> e in es && e.name != target
    ensures forall n :: n in Targets(es') <==> n in Targets(es) && n != target
    ensures Distinct(Targets(es)) ==> Distinct(Targets(es'))
    ensures target !in Targets(es) ==> es' == es
  {
    if es == [] then []
    else
      var rest := RemoveEdgesTo(es[1..], target);
      if es[0].name == target then
        NamesDrop(es[0].name, Targets(es[1..]), Targets(rest), target);
        rest
      else
        TargetsCons(es[0], rest);
        NamesKeep(es[0].name, Targets(es[1..]), Targets(rest), target);
        [es[0]] + rest
  }

  lemma TargetsCons(e: Edge, es: seq<Edge>)
    ensures Targets([e] + es) == [e.name] + Targets(es)
  {
    assert ([e] + es)[1..] == es;
  }

  /** Dropping a head named after the target keeps the removal contract. */
  lemma NamesDrop(x: string, ts: seq<string>, rs: seq<string>, target: string)
    requires x == target
    requires forall n :: n in rs <==> n in ts && n != target
    requires Distinct(ts) ==> Distinct(rs)
    ensures forall n :: n in rs <==> n in [x] + ts && n != target
    ensures Distinct([x] + ts) ==> Distinct(rs)
    ensures target in [x] + ts
  {
    DistinctCons(x, ts);
  }

  /** Keeping a head named otherwise keeps the removal contract. */
  lemma NamesKeep(x: string, ts: seq<string>, rs: seq<string>, target: string)
    requires x != target
    requires forall n :: n in rs <==> n in ts && n != target
    requires Distinct(ts) ==> Distinct(rs)
    ensures forall n :: n in [x] + rs <==> n in [x] + ts && n != target
    ensures Distinct([x] + ts) ==> Distinct([x] + rs)
  {
    DistinctCons(x, ts);
    DistinctCons(x, rs);
  }

  /** DeleteVertex: removes the vertex and every edge that leads to it, or
      -1 when it is absent (and no change). */
  function DeleteVertex(g: Graph, v: string): (res: (Graph, int))
    requires WellFormed(g)
    ensures WellFormed(res.0)
    ensures res.1 == Failure <==> v !in g.vertices
    ensures res.1 == Failure ==> res.0 == g
    ensures res.0.vertices.Keys == g.vertices.Keys - {v}
    ensures forall a, b :: HasEdge(res.0, a, b) <==> HasEdge(g, a, b) && a != v && b != v
    ensures forall n :: n in res.0.vertices ==> EdgesDropped(g.vertices[n], res.0.vertices[n], v)
  {
    if v !in g.vertices then
      NoEdgesToAbsent(g, v);
      (g, Failure)
    else
      var vs := map n | n in g.vertices && n != v ::
        g.vertices[n].(edgeList := RemoveEdgesTo(g.vertices[n].edgeList, v));
      DeleteVertexFacts(g, v, vs);
      DeleteVertexRecords(g, v, vs);
      (Graph(vs), Success)
  }

  /** In a well-formed graph no edge leads to an absent vertex, so dropping
      the edges to it changes no record. */
  lemma NoEdgesToAbsent(g: Graph, v: string)
    requires WellFormed(g) && v !in g.vertices
    ensures forall n :: n in g.vertices ==> EdgesDropped(g.vertices[n], g.vertices[n], v)
  {
    forall n, f | n in g.vertices && f in g.vertices[n].edgeList
      ensures f.name != v
    {
      var es := g.vertices[n].edgeList;
      var i :| 0 <= i < |es| && es[i] == f;
      assert Targets(es)[i] == f.name;
    }
  }

  /** Dropping the vertex and every edge to it keeps the invariant and
      removes exactly the edges that touch it. */
  lemma DeleteVertexFacts(g: Graph, v: string, vs: map<string, Vertex>)
    requires WellFormed(g) && v in g.vertices
    requires vs == map n | n in g.vertices && n != v ::
      g.vertices[n].(edgeList := RemoveEdgesTo(g.vertices[n].edgeList, v))
    ensures WellFormed(Graph(vs))
    ensures vs.Keys == g.vertices.Keys - {v}
    ensures forall a, b :: HasEdge(Graph(vs), a, b) <==> HasEdge(g, a, b) && a != v && b != v
  {
    assert vs.Keys == g.vertices.Keys - {v};
    forall a | a in vs
      ensures vs[a].name == a
      ensures Distinct(Targets(vs[a].edgeList))
      ensures forall b :: b in Targets(vs[a].edgeList) <==> b in Targets(g.vertices[a].edgeList) && b != v
    {
    }
  }

  /** Each surviving vertex keeps its record but for the edges to v. */
  lemma DeleteVertexRecords(g: Graph, v: string, vs: map<string, Vertex>)
    requires vs == map n | n in g.vertices && n != v ::
      g.vertices[n].(edgeList := RemoveEdgesTo(g.vertices[n].edgeList, v))
    ensures forall a :: a in vs ==> EdgesDropped(g.vertices[a], vs[a], v)
  {
  }

  /** isUniEdge */
  function IsUniEdge(g: Graph, v1: string, v2: string): (code: int)
    ensures code == Failure <==> !HasEdge(g, v1, v2)
  {
    if HasEdge(g, v1, v2) then Success else Failure
  }

  /** The outcomes of AddUniEdge. Only EdgeExists has a code the driver
      tests (-1); EndpointMissing is the model's own outcome for an absent
      vertex, which neither the header nor the driver describes. */
  datatype UniAdd = EdgeAdded | EdgeExists | EndpointMissing

  /** The integer AddUniEdge returns: -1 for an existing edge, and a value
      other than -1 otherwise (-2 for a missing endpoint). */
  function UniAddCode(o: UniAdd): int
  {
    match o
    case EdgeExists => Failure
    case EndpointMissing => -2
    case EdgeAdded => Success
  }

  /** The driver reports "already exists" exactly for the EdgeExists outcome,
      and the three outcomes have distinct codes. */
  lemma UniAddCodeRead(o: UniAdd, o': UniAdd)
    ensures UniAddCode(o) == Failure <==> o == EdgeExists
    ensures UniAddCode(o) == UniAddCode(o') ==> o == o'
  {
  }

  /** AddUniEdge: appends <v1,v2,wt> to v1's list. Fails with EdgeExists when
      the edge is there and with EndpointMissing when a vertex is absent;
      a failure changes nothing. */
  function AddUniEdge(g: Graph, v1: string, v2: string, wt: int): (res: (Graph, UniAdd))
    requires WellFormed(g)
    requires v1 != v2
    ensures WellFormed(res.0)
    ensures res.1 == EndpointMissing <==> v1 !in g.vertices || v2 !in g.vertices
    ensures res.1 == EdgeExists <==> v1 in g.vertices && v2 in g.vertices && HasEdge(g, v1, v2)
    ensures UniAddCode(res.1) == Failure <==> HasEdge(g, v1, v2)
    ensures !res.1.EdgeAdded? ==> res.0 == g
    ensures res.1.EdgeAdded? ==> res.0.vertices.Keys == g.vertices.Keys
    ensures HasEdge(res.0, v1, v2) <==> HasEdge(g, v1, v2) || res.1.EdgeAdded?
    ensures forall a, b :: (a, b) != (v1, v2) ==> (HasEdge(res.0, a, b) <==> HasEdge(g, a, b))
    ensures res.1.EdgeAdded? ==> Edge(v2, wt) in res.0.vertices[v1].edgeList
    ensures RecordsKept(g, res.0, {v1})
    ensures v1 in g.vertices ==>
      EdgeJoined(g.vertices[v1], res.0.vertices[v1], Edge(v2, wt), res.1.EdgeAdded?)
  {
    if v1 !in g.vertices || v2 !in g.vertices then (g, EndpointMissing)
    else if HasEdge(g, v1, v2) then (g, EdgeExists)
    else (AppendEdge(g, v1, v2, wt), EdgeAdded)
  }

  /** The successful branch of AddUniEdge: <v1,v2,wt> at the end of v1's list. */
  function AppendEdge(g: Graph, v1: string, v2: string, wt: int): (g': Graph)
    requires WellFormed(g)
    requires v1 in g.vertices && v2 in g.vertices && !HasEdge(g, v1, v2)
    ensures WellFormed(g')
    ensures g'.vertices.Keys == g.vertices.Keys
    ensures HasEdge(g', v1, v2)
    ensures forall a, b :: (a, b) != (v1, v2) ==> (HasEdge(g', a, b) <==> HasEdge(g, a, b))
    ensures Edge(v2, wt) in g'.vertices[v1].edgeList
    ensures RecordsKept(g, g', {v1})
    ensures EdgeJoined(g.vertices[v1], g'.vertices[v1], Edge(v2, wt), true)
  {
    var x := g.vertices[v1];
    var g' := Graph(g.vertices[v1 := x.(edgeList := x.edgeList + [Edge(v2, wt)])]);
    AppendEdgeFacts(g, v1, v2, wt, g');
    g'
  }

  lemma AppendEdgeFacts(g: Graph, v1: string, v2: string, wt: int, g': Graph)
    requires WellFormed(g)
    requires v1 in g.vertices && v2 in g.vertices && !HasEdge(g, v1, v2)
    requires g' == Graph(g.vertices[v1 := g.vertices[v1].(edgeList := g.vertices[v1].edgeList + [Edge(v2, wt)])])
    ensures WellFormed(g') && HasEdge(g', v1, v2)
    ensures forall a, b :: (a, b) != (v1, v2) ==> (HasEdge(g', a, b) <==> HasEdge(g, a, b))
  {
    var old_es := g.vertices[v1].edgeList;
    TargetsAppend(old_es, [Edge(v2, wt)]);
    assert Targets(g'.vertices[v1].edgeList) == Targets(old_es) + [v2];
    DistinctAppend(Targets(old_es), v2);
    forall a, b | (a, b) != (v1, v2)
      ensures HasEdge(g', a, b) <==> HasEdge(g, a, b)
    {
      if a != v1 {
        assert a in g'.vertices <==> a in g.vertices;
      }
    }
  }

  /** DeleteUniEdge: removes <v1,v2>, or -1 when it is absent. */
  function DeleteUniEdge(g: Graph, v1: string, v2: string): (res: (Graph, int))
    requires WellFormed(g)
    requires v1 != v2
    ensures WellFormed(res.0)
    ensures res.1 == Failure <==> !HasEdge(g, v1, v2)
    ensures res.1 == Failure ==> res.0 == g
    ensures res.0.vertices.Keys == g.vertices.Keys
    ensures !HasEdge(res.0, v1, v2)
    ensures forall a, b :: (a, b) != (v1, v2) ==> (HasEdge(res.0, a, b) <==> HasEdge(g, a, b))
    ensures RecordsKept(g, res.0, {v1})
    ensures v1 in g.vertices ==> EdgesDropped(g.vertices[v1], res.0.vertices[v1], v2)
  {
    if !HasEdge(g, v1, v2) then
      NoEdgeNamed(g.vertices, v1, v2);
      (g, Failure)
    else
      var x := g.vertices[v1];
      var g' := Graph(g.vertices[v1 := x.(edgeList := RemoveEdgesTo(x.edgeList, v2))]);
      DeleteEdgeFacts(g, v1, v2, g');
      (g', Success)
  }

  /** Without <v1,v2>, no edge of v1 is named v2. */
  lemma NoEdgeNamed(vs: map<string, Vertex>, v1: string, v2: string)
    requires v1 in vs ==> v2 !in Targets(vs[v1].edgeList)
    ensures v1 in vs ==> EdgesDropped(vs[v1], vs[v1], v2)
  {
    if v1 in vs {
      var es := vs[v1].edgeList;
      forall f | f in es ensures f.name != v2 {
        var i :| 0 <= i < |es| && es[i] == f;
        assert Targets(es)[i] == f.name;
      }
    }
  }

  /** Removing <v1,v2> from v1's list keeps the invariant and every other
      edge. */
  lemma DeleteEdgeFacts(g: Graph, v1: string, v2: string, g': Graph)
    requires WellFormed(g) && v1 in g.vertices
    requires g' == Graph(g.vertices[v1 := g.vertices[v1].(edgeList := RemoveEdgesTo(g.vertices[v1].edgeList, v2))])
    ensures WellFormed(g') && g'.vertices.Keys == g.vertices.Keys
    ensures !HasEdge(g', v1, v2)
    ensures forall a, b :: (a, b) != (v1, v2) ==> (HasEdge(g', a, b) <==> HasEdge(g, a, b))
  {
    var es := g.vertices[v1].edgeList;
    assert forall n :: n in Targets(g'.vertices[v1].edgeList) <==> n in Targets(es) && n != v2;
    forall a, b | (a, b) != (v1, v2)
      ensures HasEdge(g', a, b) <==> HasEdge(g, a, b)
    {
      if a != v1 {
        assert a in g'.vertices <==> a in g.vertices;
      }
    }
  }

  /** isBiDirEdge: both directions must be present. */
  function IsBiDirEdge(g: Graph, v1: string, v2: string): (code: int)
    ensures code == Failure <==> !(HasEdge(g, v1, v2) && HasEdge(g, v2, v1))
  {
    if IsUniEdge(g, v1, v2) != Failure && IsUniEdge(g, v2, v1) != Failure then Success
    else Failure
  }

  /** AddBiDirEdge: two independent attempts, <v1,v2> then <v2,v1>, reported
      as one of four outcomes. */
  function AddBiDirEdge(g: Graph, v1: string, v2: string, wt: int): (res: (Graph, BiAdd))
    requires WellFormed(g)
    requires v1 != v2
    ensures WellFormed(res.0)
    ensures res.0.vertices.Keys == g.vertices.Keys
    ensures v1 in g.vertices && v2 in g.vertices ==>
      && HasEdge(res.0, v1, v2) && HasEdge(res.0, v2, v1)
      && (res.1 == BothExisted <==> HasEdge(g, v1, v2) && HasEdge(g, v2, v1))
      && (res.1 == ForwardAddedBackwardExisted <==> !HasEdge(g, v1, v2) && HasEdge(g, v2, v1))
      && (res.1 == ForwardExistedBackwardAdded <==> HasEdge(g, v1, v2) && !HasEdge(g, v2, v1))
      && (res.1 == BothAdded <==> !HasEdge(g, v1, v2) && !HasEdge(g, v2, v1))
    ensures !(v1 in g.vertices && v2 in g.vertices) ==> res == (g, BothExisted)
    ensures forall a, b :: (a, b) != (v1, v2) && (a, b) != (v2, v1) ==>
      (HasEdge(res.0, a, b) <==> HasEdge(g, a, b))
    ensures v1 in g.vertices && v2 in g.vertices && !HasEdge(g, v1, v2) ==>
      Edge(v2, wt) in res.0.vertices[v1].edgeList
    ensures v1 in g.vertices && v2 in g.vertices && !HasEdge(g, v2, v1) ==>
      Edge(v1, wt) in res.0.vertices[v2].edgeList
    ensures RecordsKept(g, res.0, {v1, v2})
    ensures v1 in g.vertices && v2 in g.vertices ==>
      && EdgeJoined(g.vertices[v1], res.0.vertices[v1], Edge(v2, wt), !HasEdge(g, v1, v2))
      && EdgeJoined(g.vertices[v2], res.0.vertices[v2], Edge(v1, wt), !HasEdge(g, v2, v1))
  {
    var (g1, forward) := AddUniEdge(g, v1, v2, wt);
    var (g2, backward) := AddUniEdge(g1, v2, v1, wt);
    var outcome :=
      if forward.EdgeAdded? && backward.EdgeAdded? then BothAdded
      else if forward.EdgeAdded? then ForwardAddedBackwardExisted
      else if backward.EdgeAdded? then ForwardExistedBackwardAdded
      else BothExisted;
    if v1 in g.vertices && v2 in g.vertices then
      assert backward.EdgeAdded? <==> !HasEdge(g, v2, v1);
      JoinedTwice(g, g1, g2, v1, v2, Edge(v2, wt), Edge(v1, wt), forward.EdgeAdded?, backward.EdgeAdded?);
      (g2, outcome)
    else (g2, outcome)
  }

  /** Two additions, to v1's record and then to v2's, compose: every other
      record is kept and each of the two gains its own edge. */
  lemma JoinedTwice(g: Graph, g1: Graph, g2: Graph, v1: string, v2: string,
                    e1: Edge, e2: Edge, added1: bool, added2: bool)
    requires v1 != v2 && v1 in g.vertices && v2 in g.vertices
    requires g1.vertices.Keys == g.vertices.Keys && g2.vertices.Keys == g.vertices.Keys
    requires RecordsKept(g, g1, {v1}) && EdgeJoined(g.vertices[v1], g1.vertices[v1], e1, added1)
    requires RecordsKept(g1, g2, {v2}) && EdgeJoined(g1.vertices[v2], g2.vertices[v2], e2, added2)
    ensures RecordsKept(g, g2, {v1, v2})
    ensures EdgeJoined(g.vertices[v1], g2.vertices[v1], e1, added1)
    ensures EdgeJoined(g.vertices[v2], g2.vertices[v2], e2, added2)
  {
  }

  /** Two deletions, from v1's record and then from v2's, compose likewise. */
  lemma DroppedTwice(g: Graph, g1: Graph, g2: Graph, v1: string, v2: string)
    requires v1 != v2
    requires g1.vertices.Keys == g.vertices.Keys && g2.vertices.Keys == g.vertices.Keys
    requires RecordsKept(g, g1, {v1}) && (v1 in g.vertices ==> EdgesDropped(g.vertices[v1], g1.vertices[v1], v2))
    requires RecordsKept(g1, g2, {v2}) && (v2 in g1.vertices ==> EdgesDropped(g1.vertices[v2], g2.vertices[v2], v1))
    ensures RecordsKept(g, g2, {v1, v2})
    ensures v1 in g.vertices ==> EdgesDropped(g.vertices[v1], g2.vertices[v1], v2)
    ensures v2 in g.vertices ==> EdgesDropped(g.vertices[v2], g2.vertices[v2], v1)
  {
  }

  /** DeleteBiDirEdge: two independent deletions, reported as one of four
      outcomes. */
  function DeleteBiDirEdge(g: Graph, v1: string, v2: string): (res: (Graph, BiDelete))
    requires WellFormed(g)
    requires v1 != v2
    ensures WellFormed(res.0)
    ensures res.0.vertices.Keys == g.vertices.Keys
    ensures !HasEdge(res.0, v1, v2) && !HasEdge(res.0, v2, v1)
    ensures res.1 == NeitherExisted <==> !HasEdge(g, v1, v2) && !HasEdge(g, v2, v1)
    ensures res.1 == ForwardDeletedBackwardAbsent <==> HasEdge(g, v1, v2) && !HasEdge(g, v2, v1)
    ensures res.1 == ForwardAbsentBackwardDeleted <==> !HasEdge(g, v1, v2) && HasEdge(g, v2, v1)
    ensures res.1 == BothDeleted <==> HasEdge(g, v1, v2) && HasEdge(g, v2, v1)
    ensures forall a, b :: (a, b) != (v1, v2) && (a, b) != (v2, v1) ==>
      (HasEdge(res.0, a, b) <==> HasEdge(g, a, b))
    ensures RecordsKept(g, res.0, {v1, v2})
    ensures v1 in g.vertices ==> EdgesDropped(g.vertices[v1], res.0.vertices[v1], v2)
    ensures v2 in g.vertices ==> EdgesDropped(g.vertices[v2], res.0.vertices[v2], v1)
  {
    var (g1, forward) := DeleteUniEdge(g, v1, v2);
    var (g2, backward) := DeleteUniEdge(g1, v2, v1);
    DroppedTwice(g, g1, g2, v1, v2);
    var outcome :=
      if forward != Failure && backward != Failure then BothDeleted
      else if forward != Failure then ForwardDeletedBackwardAbsent
      else if backward != Failure then ForwardAbsentBackwardDeleted
      else NeitherExisted;
    (g2, outcome)
  }

  /** ShortestDistance's result classification. The algorithm itself is not
      part of this model: `finalDist` is the current distance it leaves on v2.
      v1 is checked first, then v2; a distance still at INF means no path. */
  function ShortestDistance(g: Graph, v1: string, v2: string, finalDist: real): (o: DistanceOutcome)
    ensures o == SourceMissing <==> v1 !in g.vertices
    ensures o == TargetMissing <==> v1 in g.vertices && v2 !in g.vertices
    ensures o == NoPath <==> v1 in g.vertices && v2 in g.vertices && finalDist == INF
    ensures o.Distance? ==> o.d == finalDist && finalDist != INF
  {
    if v1 !in g.vertices then SourceMissing
    else if v2 !in g.vertices then TargetMissing
    else if finalDist == INF then NoPath
    else Distance(finalDist)
  }

  // ---------------------------------------------------------------------
  // Properties across operations
  // ---------------------------------------------------------------------

  /** Adding the same vertex twice: the second call reports -1 and changes
      nothing. */
  lemma AddVertexTwice(g: Graph, v: string)
    requires WellFormed(g)
    ensures AddVertex(AddVertex(g, v).0, v).1 == Failure
    ensures AddVertex(AddVertex(g, v).0, v).0 == AddVertex(g, v).0
  {
  }

  /** After DeleteVertex(x) no remaining vertex has an edge to x. */
  lemma DeleteVertexLeavesNoDanglingEdge(g: Graph, x: string)
    requires WellFormed(g)
    ensures forall u :: IsUniEdge(DeleteVertex(g, x).0, u, x) == Failure
    ensures IsVertex(DeleteVertex(g, x).0, x) == Failure
  {
  }

  /** AddBiDirEdge between two vertices makes isBiDirEdge succeed; deleting one
      direction afterwards makes it fail while the other direction remains. */
  lemma BiDirEdgeAccounting(g: Graph, a: string, b: string, w: int)
    requires WellFormed(g) && a != b && a in g.vertices && b in g.vertices
    ensures IsBiDirEdge(AddBiDirEdge(g, a, b, w).0, a, b) != Failure
    ensures IsBiDirEdge(DeleteUniEdge(AddBiDirEdge(g, a, b, w).0, a, b).0, a, b) == Failure
    ensures IsUniEdge(DeleteUniEdge(AddBiDirEdge(g, a, b, w).0, a, b).0, b, a) != Failure
  {
  }
}
