/** Model of the compile-time annotating pass that sets the Compression execution
    property on every edge crossing a stage boundary.

    A DAG is a map from vertex id to vertex plus a sequence of edges; vertices and
    edges carry execution-property maps. The pass visits the vertices in an order
    supplied by the caller (the DAG's topological order) and, for each vertex,
    annotates the incoming edges whose source lies in another stage. */
module CompressionPass {
  import opened Wrappers

  type VertexId = string

  /** Execution-property keys: the two the pass reads and writes, other keys by name. */
  datatype Key = StageId | Compression | OtherKey(name: string)

  /** Compression algorithms: LZ4, the pass's default, and any other member by name. */
  datatype Algorithm = LZ4 | OtherAlgorithm(name: string)

  /** Execution-property values. */
  datatype Value = StageValue(stage: int) | CompressionValue(algorithm: Algorithm) | OtherValue(repr: string)

  type Properties = map<Key, Value>

  datatype Vertex = Vertex(properties: Properties)

  datatype Edge = Edge(src: VertexId, dst: VertexId, properties: Properties)

  datatype Dag = Dag(vertices: map<VertexId, Vertex>, edges: seq<Edge>)

  /** The NullPointerException raised when a vertex with incoming edges has no StageId. */
  datatype PassError = NullStageId

  /** A configured pass: the property key it is registered under and the algorithm it applies. */
  datatype Pass = Pass(key: Key, compression: Algorithm)

  /** The no-argument constructor. */
  function DefaultPass(): (p: Pass)
    ensures p.key == Compression
    ensures p.compression == LZ4
  {
    Pass(Compression, LZ4)
  }

  /** The constructor taking the algorithm to apply. */
  function PassWith(compression: Algorithm): (p: Pass)
    ensures p.key == Compression
    ensures p.compression == compression
  {
    Pass(Compression, compression)
  }

  /** The StageId property of a vertex, absent when it has none. */
  function StageOf(vertices: map<VertexId, Vertex>, v: VertexId): Option<Value> {
    if v in vertices && StageId in vertices[v].properties then Some(vertices[v].properties[StageId]) else None
  }

  /** An edge crosses stages when its destination's StageId differs from its source's
      (a source without StageId differs from any destination StageId). */
  predicate CrossesStages(vertices: map<VertexId, Vertex>, e: Edge) {
    StageOf(vertices, e.dst) != StageOf(vertices, e.src)
  }

  /** The rule applied to one edge: cross-stage edges get the Compression property,
      all others are left as they are. */
  function AnnotateEdge(pass: Pass, vertices: map<VertexId, Vertex>, e: Edge): Edge {
    if CrossesStages(vertices, e) then
      e.(properties := e.properties[Compression := CompressionValue(pass.compression)])
    else
      e
  }

  /** True when some edge ends at a vertex without StageId: visiting that vertex
      dereferences its missing StageId. */
  predicate SomeDestinationLacksStage(dag: Dag) {
    exists i :: 0 <= i < |dag.edges| && StageOf(dag.vertices, dag.edges[i].dst).None?
  }

  /** `apply`, stated edge by edge: the same vertices and the same edges in the same
      order, each cross-stage edge now carrying the configured Compression (other
      properties kept), each same-stage edge untouched; it fails exactly when an edge
      ends at a vertex without StageId. */
  function Apply(pass: Pass, dag: Dag): (r: Result<Dag, PassError>)
    ensures r.Failure? <==> exists i :: 0 <= i < |dag.edges| && StageOf(dag.vertices, dag.edges[i].dst).None?
    ensures r.Success? ==>
              && r.value.vertices == dag.vertices
              && |r.value.edges| == |dag.edges|
              && (forall i :: 0 <= i < |dag.edges| ==>
                    && r.value.edges[i].src == dag.edges[i].src
                    && r.value.edges[i].dst == dag.edges[i].dst)
              && (forall i :: 0 <= i < |dag.edges| && CrossesStages(dag.vertices, dag.edges[i]) ==>
                    && r.value.edges[i].properties.Keys == dag.edges[i].properties.Keys + {Compression}
                    && r.value.edges[i].properties[Compression] == CompressionValue(pass.compression)
                    && (forall k :: k in dag.edges[i].properties && k != Compression ==>
                          r.value.edges[i].properties[k] == dag.edges[i].properties[k]))
              && (forall i :: 0 <= i < |dag.edges| && !CrossesStages(dag.vertices, dag.edges[i]) ==>
                    r.value.edges[i] == dag.edges[i])
  {
    if SomeDestinationLacksStage(dag) then
      Failure(NullStageId)
    else
      Success(dag.(edges := seq(|dag.edges|, i requires 0 <= i < |dag.edges| =>
                                  AnnotateEdge(pass, dag.vertices, dag.edges[i]))))
  }

  /** One step of `topologicalDo`: annotate the qualifying incoming edges of vertex `v`. */
  function VisitVertex(pass: Pass, dag: Dag, v: VertexId): Result<Dag, PassError> {
    if exists i :: 0 <= i < |dag.edges| && dag.edges[i].dst == v && StageOf(dag.vertices, v).None? then
      Failure(NullStageId)
    else
      Success(dag.(edges := seq(|dag.edges|, i requires 0 <= i < |dag.edges| =>
                                  if dag.edges[i].dst == v then AnnotateEdge(pass, dag.vertices, dag.edges[i])
                                  else dag.edges[i])))
  }

  /** `apply` as the source runs it: visit the vertices in the given order. */
  function TopologicalDo(pass: Pass, dag: Dag, order: seq<VertexId>): Result<Dag, PassError>
    decreases |order|
  {
    if order == [] then
      Success(dag)
    else
      var next :- VisitVertex(pass, dag, order[0]);
      TopologicalDo(pass, next, order[1..])
  }

  /** Annotating an edge twice is annotating it once. */
  lemma AnnotateEdgeIdempotent(pass: Pass, vertices: map<VertexId, Vertex>, e: Edge)
    ensures AnnotateEdge(pass, vertices, AnnotateEdge(pass, vertices, e)) == AnnotateEdge(pass, vertices, e)
  {
    if CrossesStages(vertices, e) {
      var p := e.properties[Compression := CompressionValue(pass.compression)];
      assert p[Compression := CompressionValue(pass.compression)] == p;
    }
  }

  /** The result does not depend on the visiting order: any order in which every edge's
      destination occurs (duplicates and extra ids allowed) gives the edge-by-edge result. */
  lemma TopologicalDoMatchesApply(pass: Pass, dag: Dag, order: seq<VertexId>)
    requires forall i :: 0 <= i < |dag.edges| ==> dag.edges[i].dst in order
    ensures TopologicalDo(pass, dag, order) == Apply(pass, dag)
  {
    VisitInvariant(pass, dag, dag, {}, order);
  }

  /** The fold after the vertices in `visited` have been visited: exactly the edges into
      visited vertices are annotated. */
  lemma {:induction false} VisitInvariant(pass: Pass, dag0: Dag, dag: Dag, visited: set<VertexId>, order: seq<VertexId>)
    requires dag.vertices == dag0.vertices
    requires |dag.edges| == |dag0.edges|
    requires forall i :: 0 <= i < |dag.edges| ==>
               dag.edges[i] == (if dag0.edges[i].dst in visited then AnnotateEdge(pass, dag0.vertices, dag0.edges[i])
                                else dag0.edges[i])
    requires forall i :: 0 <= i < |dag0.edges| && dag0.edges[i].dst in visited ==>
               StageOf(dag0.vertices, dag0.edges[i].dst).Some?
    requires forall i :: 0 <= i < |dag0.edges| ==> dag0.edges[i].dst in visited || dag0.edges[i].dst in order
    ensures TopologicalDo(pass, dag, order) == Apply(pass, dag0)
    decreases |order|
  {
    if order == [] {
      assert !SomeDestinationLacksStage(dag0);
      assert dag == dag0.(edges := seq(|dag0.edges|, i requires 0 <= i < |dag0.edges| =>
                                         AnnotateEdge(pass, dag0.vertices, dag0.edges[i])));
    } else {
      var v := order[0];
      if exists i :: 0 <= i < |dag.edges| && dag.edges[i].dst == v && StageOf(dag.vertices, v).None? {
        var i :| 0 <= i < |dag.edges| && dag.edges[i].dst == v && StageOf(dag.vertices, v).None?;
        assert dag0.edges[i].dst == v;
        assert SomeDestinationLacksStage(dag0);
      } else {
        var next := VisitVertex(pass, dag, v).value;
        forall i | 0 <= i < |dag.edges| && dag0.edges[i].dst == v
          ensures next.edges[i] == AnnotateEdge(pass, dag0.vertices, dag0.edges[i])
        {
          AnnotateEdgeIdempotent(pass, dag0.vertices, dag0.edges[i]);
        }
        VisitInvariant(pass, dag0, next, visited + {v}, order[1..]);
      }
    }
  }

  /** Running the pass on its own output changes nothing. */
  lemma ApplyIdempotent(pass: Pass, dag: Dag)
    requires Apply(pass, dag).Success?
    ensures Apply(pass, Apply(pass, dag).value) == Apply(pass, dag)
  {
    var once := Apply(pass, dag).value;
    assert !SomeDestinationLacksStage(once) by {
      forall i | 0 <= i < |once.edges|
        ensures StageOf(once.vertices, once.edges[i].dst).Some?
      {
        assert once.edges[i].dst == dag.edges[i].dst;
      }
    }
    forall i | 0 <= i < |once.edges|
      ensures AnnotateEdge(pass, once.vertices, once.edges[i]) == once.edges[i]
    {
      AnnotateEdgeIdempotent(pass, dag.vertices, dag.edges[i]);
    }
    assert Apply(pass, once).value.edges == once.edges;
  }
}
