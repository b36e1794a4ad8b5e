/** The query hypergraph (class Hypergraph in hypergraph.py): one vertex per
    variable, one hyperedge per relation of the query. */
module Hypergraphs {
  import opened Wrappers
  import opened Strings
  import opened Datalog

  /** One hyperedge: the relation's name and the set of its arguments. */
  datatype Edge = Edge(name: string, vertices: set<string>)

  /** The IndexError of an edge lookup outside the edge list. */
  datatype LookupError = IndexError

  /** The edge a relation contributes: repeated arguments collapse. */
  function EdgeOf(r: Relation): (e: Edge)
    ensures e.name == r.name
    ensures forall v :: v in e.vertices <==> v in r.args
  {
    Edge(r.name, ArgSet(r.args))
  }

  /** One edge per relation, in relation order. */
  function EdgesOf(relations: seq<Relation>): (edges: seq<Edge>)
    ensures |edges| == |relations|
    ensures forall i :: 0 <= i < |relations| ==> edges[i] == EdgeOf(relations[i])
  {
    if relations == [] then []
    else EdgesOf(relations[..|relations| - 1]) + [EdgeOf(relations[|relations| - 1])]
  }

  lemma EdgesOfStep(relations: seq<Relation>, i: nat)
    requires i < |relations|
    ensures EdgesOf(relations[..i + 1]) == EdgesOf(relations[..i]) + [EdgeOf(relations[i])]
  {
    assert relations[..i + 1][..i] == relations[..i];
  }

  /** The union of the vertex sets of `edges`. */
  function UnionOf(edges: seq<Edge>): set<string> {
    if edges == [] then {}
    else UnionOf(edges[..|edges| - 1]) + edges[|edges| - 1].vertices
  }

  lemma UnionOfStep(edges: seq<Edge>, e: Edge)
    ensures UnionOf(edges + [e]) == UnionOf(edges) + e.vertices
  {
    assert (edges + [e])[..|edges|] == edges;
  }

  /** A vertex is in the union exactly when some edge holds it. */
  lemma {:induction false} UnionMembership(edges: seq<Edge>, v: string)
    ensures v in UnionOf(edges) <==> exists i :: 0 <= i < |edges| && v in edges[i].vertices
  {
    if edges != [] {
      var front := edges[..|edges| - 1];
      UnionMembership(front, v);
      assert forall i :: 0 <= i < |front| ==> front[i] == edges[i];
    }
  }

  /** Every edge lies inside the union. */
  lemma EdgeWithinUnion(edges: seq<Edge>, i: nat)
    requires i < |edges|
    ensures edges[i].vertices <= UnionOf(edges)
  {
    forall v | v in edges[i].vertices ensures v in UnionOf(edges) {
      UnionMembership(edges, v);
    }
  }

  lemma AllEdgesWithinUnion(edges: seq<Edge>)
    ensures forall i :: 0 <= i < |edges| ==>
              edges[i].vertices <= UnionOf(edges) && |edges[i].vertices| <= |UnionOf(edges)|
  {
    forall i | 0 <= i < |edges|
      ensures edges[i].vertices <= UnionOf(edges) && |edges[i].vertices| <= |UnionOf(edges)|
    {
      EdgeWithinUnion(edges, i);
      SubsetCardinality(edges[i].vertices, UnionOf(edges));
    }
  }

  /** The union is empty exactly when every edge is. */
  lemma UnionEmpty(edges: seq<Edge>)
    ensures UnionOf(edges) == {} <==> forall i :: 0 <= i < |edges| ==> edges[i].vertices == {}
  {
    if UnionOf(edges) != {} {
      var v :| v in UnionOf(edges);
      UnionMembership(edges, v);
    }
    AllEdgesWithinUnion(edges);
  }

  /** The vertices of the edges built from `relations` are the relations'
      variables. */
  lemma {:induction false} UnionOfEdges(relations: seq<Relation>)
    ensures UnionOf(EdgesOf(relations)) == Variables(relations)
  {
    if relations != [] {
      var front := relations[..|relations| - 1];
      UnionOfEdges(front);
      assert EdgesOf(relations)[..|relations| - 1] == EdgesOf(front);
    }
  }

  /** The largest edge size, 0 for no edges. */
  function MaxEdgeSize(edges: seq<Edge>): (m: nat)
    ensures forall i :: 0 <= i < |edges| ==> |edges[i].vertices| <= m
    ensures edges == [] ==> m == 0
    ensures edges != [] ==> exists i :: 0 <= i < |edges| && |edges[i].vertices| == m
  {
    if edges == [] then 0
    else
      var front := edges[..|edges| - 1];
      var last := |edges[|edges| - 1].vertices|;
      assert forall i :: 0 <= i < |front| ==> front[i] == edges[i];
      if MaxEdgeSize(front) < last then last else MaxEdgeSize(front)
  }

  lemma {:induction false} SubsetCardinality(a: set<string>, b: set<string>)
    requires a <= b
    ensures |a| <= |b|
    decreases |a|
  {
    if a != {} {
      var x :| x in a;
      SubsetCardinality(a - {x}, b - {x});
    }
  }

  /** No edge is larger than the union of all edges. */
  lemma MaxEdgeSizeWithinUnion(edges: seq<Edge>)
    ensures MaxEdgeSize(edges) <= |UnionOf(edges)|
  {
    if edges != [] {
      var i :| 0 <= i < |edges| && |edges[i].vertices| == MaxEdgeSize(edges);
      EdgeWithinUnion(edges, i);
      SubsetCardinality(edges[i].vertices, UnionOf(edges));
    }
  }

  /** The indices of the edges holding `v`, in increasing order. */
  function Incidence(edges: seq<Edge>, v: string): (r: seq<nat>)
    ensures forall k :: 0 <= k < |r| ==> r[k] < |edges| && v in edges[r[k]].vertices
    ensures forall i :: 0 <= i < |edges| && v in edges[i].vertices ==> i in r
    ensures forall j, k :: 0 <= j < k < |r| ==> r[j] < r[k]
  {
    if edges == [] then []
    else
      var n := |edges| - 1;
      var front := edges[..n];
      assert forall i :: 0 <= i < n ==> front[i] == edges[i];
      Incidence(front, v) + (if v in edges[n].vertices then [n] else [])
  }

  lemma IncidenceStep(edges: seq<Edge>, v: string, i: nat)
    requires i < |edges|
    ensures Incidence(edges[..i + 1], v) == Incidence(edges[..i], v) + (if v in edges[i].vertices then [i] else [])
  {
    assert edges[..i + 1][..i] == edges[..i];
  }

  lemma IncidenceMembership(edges: seq<Edge>, v: string)
    ensures forall i :: i in Incidence(edges, v) <==> 0 <= i < |edges| && v in edges[i].vertices
  {
  }

  /** A vertex outside the union is in no edge. */
  lemma IncidenceOutside(edges: seq<Edge>, v: string)
    requires v !in UnionOf(edges)
    ensures Incidence(edges, v) == []
  {
    var r := Incidence(edges, v);
    if r != [] {
      EdgeWithinUnion(edges, r[0]);
    }
  }

  /** The edge at a Python list index: `i` counts from the end when it is
      negative, and IndexError is raised outside [-|edges|, |edges|). */
  function EdgeAt(edges: seq<Edge>, i: int): (r: Result<Edge, LookupError>)
    ensures r.Ok? <==> -|edges| <= i < |edges|
    ensures 0 <= i < |edges| ==> r == Ok(edges[i])
    ensures -|edges| <= i < 0 ==> r == Ok(edges[|edges| + i])
    ensures r.Ok? ==> r.value in edges
  {
    if 0 <= i < |edges| then Ok(edges[i])
    else if -|edges| <= i < 0 then Ok(edges[|edges| + i])
    else Err(IndexError)
  }

  /** Hypergraph: the vertex set and the ordered list of named edges. */
  class Hypergraph {
    var vertices: set<string>
    var edges: seq<Edge>

    /** The vertex set is exactly the union of the edges. */
    ghost predicate Valid()
      reads this
    {
      vertices == UnionOf(edges)
    }

    /** __init__: no vertices and no edges. */
    constructor()
      ensures vertices == {} && edges == []
      ensures Valid()
    {
      vertices := {};
      edges := [];
    }

    /** from_relations: clears the graph, then adds one edge per relation
        (its name and the set of its arguments) and those arguments to the
        vertex set. Nothing of the previous graph survives. */
    method FromRelations(relations: seq<Relation>)
      modifies this
      ensures edges == EdgesOf(relations)
      ensures vertices == Variables(relations)
      ensures Valid()
    {
      vertices := {};
      edges := [];
      for i := 0 to |relations|
        invariant edges == EdgesOf(relations[..i])
        invariant vertices == UnionOf(edges)
      {
        EdgesOfStep(relations, i);
        var edgeVertices := ArgSet(relations[i].args);
        UnionOfStep(edges, Edge(relations[i].name, edgeVertices));
        vertices := vertices + edgeVertices;
        edges := edges + [Edge(relations[i].name, edgeVertices)];
      }
      assert relations[..|relations|] == relations;
      UnionOfEdges(relations);
    }

    /** get_vertex_count: on a valid graph it is 0 exactly when every edge
        is empty, and it bounds every edge size. */
    function VertexCount(): (n: nat)
      reads this
      ensures Valid() ==> (n == 0 <==> forall i :: 0 <= i < |edges| ==> edges[i].vertices == {})
      ensures Valid() ==> forall i :: 0 <= i < |edges| ==> |edges[i].vertices| <= n
    {
      AllEdgesWithinUnion(edges);
      UnionEmpty(edges);
      |vertices|
    }

    /** get_edge_count: a valid graph with no edges has no vertices. */
    function EdgeCount(): (n: nat)
      reads this
      ensures n == 0 <==> edges == []
      ensures Valid() && n == 0 ==> vertices == {}
    {
      |edges|
    }

    /** get_rank: 0 without edges, otherwise the largest edge size; on a
        valid graph it never exceeds the vertex count. */
    function Rank(): (r: nat)
      reads this
      ensures edges == [] ==> r == 0
      ensures forall i :: 0 <= i < |edges| ==> |edges[i].vertices| <= r
      ensures edges != [] ==> exists i :: 0 <= i < |edges| && |edges[i].vertices| == r
      ensures Valid() ==> r <= |vertices|
    {
      MaxEdgeSizeWithinUnion(edges);
      MaxEdgeSize(edges)
    }

    /** get_edges_containing_vertex: the indices of the edges holding
        `vertex`, in increasing order; [] for a vertex of no edge. */
    method EdgesContainingVertex(vertex: string) returns (result: seq<nat>)
      ensures result == Incidence(edges, vertex)
      ensures forall i :: i in result <==> 0 <= i < |edges| && vertex in edges[i].vertices
      ensures forall j, k :: 0 <= j < k < |result| ==> result[j] < result[k]
      ensures Valid() && vertex !in vertices ==> result == []
    {
      result := [];
      for i := 0 to |edges|
        invariant result == Incidence(edges[..i], vertex)
      {
        IncidenceStep(edges, vertex, i);
        if vertex in edges[i].vertices {
          result := result + [i];
        }
      }
      assert edges[..|edges|] == edges;
      IncidenceMembership(edges, vertex);
      if Valid() && vertex !in vertices {
        IncidenceOutside(edges, vertex);
      }
    }

    /** get_vertices_list: every vertex once, in ascending code-point order. */
    function VerticesList(): (r: seq<string>)
      reads this
      ensures |r| == |vertices|
      ensures forall v :: v in r <==> v in vertices
      ensures StrictlyIncreasing(r)
    {
      SortedList(vertices)
    }

    /** get_edge_size: the size of the edge at a Python index, IndexError
        outside the list. */
    function EdgeSize(edgeIndex: int): (r: Result<nat, LookupError>)
      reads this
      ensures r.Ok? <==> -|edges| <= edgeIndex < |edges|
      ensures 0 <= edgeIndex < |edges| ==> r == Ok(|edges[edgeIndex].vertices|)
      ensures -|edges| <= edgeIndex < 0 ==> r == Ok(|edges[|edges| + edgeIndex].vertices|)
      ensures r.Ok? ==> r.value <= Rank()
    {
      match EdgeAt(edges, edgeIndex)
      case Ok(e) => Ok(|e.vertices|)
      case Err(err) => Err(err)
    }

    /** get_edge_name: the name of the edge at a Python index, IndexError
        outside the list. */
    function EdgeName(edgeIndex: int): (r: Result<string, LookupError>)
      reads this
      ensures r.Ok? <==> -|edges| <= edgeIndex < |edges|
      ensures 0 <= edgeIndex < |edges| ==> r == Ok(edges[edgeIndex].name)
      ensures -|edges| <= edgeIndex < 0 ==> r == Ok(edges[|edges| + edgeIndex].name)
      ensures r.Ok? ==> exists i :: 0 <= i < |edges| && edges[i].name == r.value
    {
      match EdgeAt(edges, edgeIndex)
      case Ok(e) => Ok(e.name)
      case Err(err) => Err(err)
    }
  }
}
