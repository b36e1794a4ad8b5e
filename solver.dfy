/** The linear programs behind the fractional edge cover number rho* and the
    fractional edge packing number tau* of a query hypergraph (class
    QuerySolver in solver.py), and the AGM bound it reports. The LP solver
    itself is a parameter: an oracle from a program to a result. */
module Solver {
  import opened Wrappers
  import opened Strings
  import opened Hypergraphs

  /** The bounds of one variable; an absent upper bound is None. */
  datatype Bound = Bound(lower: real, upper: Option<real>)

  /** minimize objective . x  subject to  rows . x <= rhs  and the bounds. */
  datatype LinearProgram = LinearProgram(
    objective: seq<real>, rows: seq<seq<real>>, rhs: seq<real>, bounds: seq<Bound>)

  /** What the LP solver reports: whether it succeeded, and the optimum. */
  datatype LpResult = LpResult(success: bool, fun: real)

  /** The LP solver. */
  type Oracle = LinearProgram -> LpResult

  /** The RuntimeErrors of the two LP methods, and the ZeroDivisionError the
      AGM product raises for an edge without vertices. */
  datatype SolverError = CoverFailed | PackingFailed | ZeroDivision

  function Message(e: SolverError): string {
    match e
    case CoverFailed => "Failed to solve fractional edge cover"
    case PackingFailed => "Failed to solve fractional edge packing"
    case ZeroDivision => "float division by zero"
  }

  /** [x] * n */
  function Constant<T>(n: nat, x: T): (s: seq<T>)
    ensures |s| == n
    ensures forall i :: 0 <= i < n ==> s[i] == x
  {
    if n == 0 then [] else Constant(n - 1, x) + [x]
  }

  /** The 0/1 incidence row of vertex `v`: one entry per edge. */
  function IncidenceRow(edges: seq<Edge>, v: string): (row: seq<real>)
    ensures |row| == |edges|
  {
    if edges == [] then []
    else
      var n := |edges| - 1;
      IncidenceRow(edges[..n], v) + [if v in edges[n].vertices then 1.0 else 0.0]
  }

  /** Entry i of the incidence row of `v` is 1.0 exactly when `v` is in
      edge i, and 0.0 otherwise. */
  lemma {:induction false} IncidenceRowAt(edges: seq<Edge>, v: string, i: nat)
    requires i < |edges|
    ensures IncidenceRow(edges, v)[i] == if v in edges[i].vertices then 1.0 else 0.0
  {
    var n := |edges| - 1;
    if i < n {
      IncidenceRowAt(edges[..n], v, i);
    }
  }

  /** [-x for x in row] */
  function Negated(row: seq<real>): (r: seq<real>)
    ensures |r| == |row|
  {
    seq(|row|, i requires 0 <= i < |row| => -row[i])
  }

  /** The cover constraints: one row per vertex of `vs`. */
  function CoverRows(edges: seq<Edge>, vs: seq<string>): (rows: seq<seq<real>>)
    ensures |rows| == |vs|
  {
    if vs == [] then []
    else
      var n := |vs| - 1;
      CoverRows(edges, vs[..n]) + [Negated(IncidenceRow(edges, vs[n]))]
  }

  /** Cover row k is the negated incidence row of the k-th vertex. */
  lemma {:induction false} CoverRowsAt(edges: seq<Edge>, vs: seq<string>, k: nat)
    requires k < |vs|
    ensures CoverRows(edges, vs)[k] == Negated(IncidenceRow(edges, vs[k]))
  {
    var n := |vs| - 1;
    if k < n {
      CoverRowsAt(edges, vs[..n], k);
    }
  }

  /** The packing constraints: one row per vertex of `vs`. */
  function PackingRows(edges: seq<Edge>, vs: seq<string>): (rows: seq<seq<real>>)
    ensures |rows| == |vs|
  {
    if vs == [] then []
    else
      var n := |vs| - 1;
      PackingRows(edges, vs[..n]) + [IncidenceRow(edges, vs[n])]
  }

  /** Packing row k is the incidence row of the k-th vertex. */
  lemma {:induction false} PackingRowsAt(edges: seq<Edge>, vs: seq<string>, k: nat)
    requires k < |vs|
    ensures PackingRows(edges, vs)[k] == IncidenceRow(edges, vs[k])
  {
    var n := |vs| - 1;
    if k < n {
      PackingRowsAt(edges, vs[..n], k);
    }
  }

  /** n zeros with 1.0 at each index listed in `marks`. */
  function Marked(n: nat, marks: seq<nat>): (r: seq<real>)
    ensures |r| == n
  {
    seq(n, i requires 0 <= i < n => if i in marks then 1.0 else 0.0)
  }

  lemma MarkOne(n: nat, marks: seq<nat>, x: nat)
    requires x < n
    ensures Marked(n, marks + [x]) == Marked(n, marks)[x := 1.0]
  {
  }

  /** Marking the edges holding `v` gives the incidence row of `v`. */
  lemma MarkedIncidence(edges: seq<Edge>, v: string)
    ensures Marked(|edges|, Incidence(edges, v)) == IncidenceRow(edges, v)
  {
    forall i | 0 <= i < |edges|
      ensures Marked(|edges|, Incidence(edges, v))[i] == IncidenceRow(edges, v)[i]
    {
      IncidenceRowAt(edges, v, i);
    }
  }

  /** The fractional edge cover LP over the vertices `vs`: minimize the sum
      of the edge weights, each vertex covered with weight at least 1
      (written as -row . x <= -1), every weight at least 0. */
  function CoverProgram(edges: seq<Edge>, vs: seq<string>): LinearProgram {
    LinearProgram(Constant(|edges|, 1.0), CoverRows(edges, vs), Constant(|vs|, -1.0),
                  Constant(|edges|, Bound(0.0, None)))
  }

  /** The fractional edge packing LP over the vertices `vs`: maximize the
      sum of the edge weights (minimize its negation), each vertex carrying
      weight at most 1, every weight at least 0. */
  function PackingProgram(edges: seq<Edge>, vs: seq<string>): LinearProgram {
    LinearProgram(Constant(|edges|, -1.0), PackingRows(edges, vs), Constant(|vs|, 1.0),
                  Constant(|edges|, Bound(0.0, None)))
  }

  /** The cover program has one row per vertex and one column per edge; the
      entry of vertex k and edge i is -1.0 exactly when the vertex is in the
      edge and 0.0 otherwise; every right-hand side is -1.0, every objective
      coefficient 1.0, every variable bounded below by 0 and not above. */
  lemma CoverProgramShape(edges: seq<Edge>, vs: seq<string>, k: nat, i: nat)
    requires k < |vs| && i < |edges|
    ensures var lp := CoverProgram(edges, vs);
      && |lp.rows| == |lp.rhs| == |vs|
      && |lp.objective| == |lp.bounds| == |edges|
      && |lp.rows[k]| == |edges| && lp.rhs[k] == -1.0
      && lp.rows[k][i] == (if vs[k] in edges[i].vertices then -1.0 else 0.0)
      && lp.objective[i] == 1.0 && lp.bounds[i] == Bound(0.0, None)
  {
    CoverRowsAt(edges, vs, k);
    IncidenceRowAt(edges, vs[k], i);
  }

  /** The packing program has one row per vertex and one column per edge;
      the entry of vertex k and edge i is 1.0 exactly when the vertex is in
      the edge and 0.0 otherwise; every right-hand side is 1.0, every
      objective coefficient -1.0, every variable bounded below by 0 and not
      above. */
  lemma PackingProgramShape(edges: seq<Edge>, vs: seq<string>, k: nat, i: nat)
    requires k < |vs| && i < |edges|
    ensures var lp := PackingProgram(edges, vs);
      && |lp.rows| == |lp.rhs| == |vs|
      && |lp.objective| == |lp.bounds| == |edges|
      && |lp.rows[k]| == |edges| && lp.rhs[k] == 1.0
      && lp.rows[k][i] == (if vs[k] in edges[i].vertices then 1.0 else 0.0)
      && lp.objective[i] == -1.0 && lp.bounds[i] == Bound(0.0, None)
  {
    PackingRowsAt(edges, vs, k);
    IncidenceRowAt(edges, vs[k], i);
  }

  /** The inner product of two rows of the same length. */
  function Dot(a: seq<real>, x: seq<real>): real
    requires |a| == |x|
  {
    if a == [] then 0.0 else Dot(a[..|a| - 1], x[..|x| - 1]) + a[|a| - 1] * x[|x| - 1]
  }

  /** `x` satisfies every constraint row and every bound of `lp`. */
  predicate Feasible(lp: LinearProgram, x: seq<real>) {
    && |x| == |lp.objective| == |lp.bounds|
    && |lp.rows| == |lp.rhs|
    && (forall k :: 0 <= k < |lp.rows| ==> |lp.rows[k]| == |x| && Dot(lp.rows[k], x) <= lp.rhs[k])
    && (forall i :: 0 <= i < |x| ==>
          lp.bounds[i].lower <= x[i] && (lp.bounds[i].upper.Some? ==> x[i] <= lp.bounds[i].upper.value))
  }

  /** Summing the incidence row of `v` counts the edges holding `v`. */
  lemma {:induction false} IncidenceRowSum(edges: seq<Edge>, v: string)
    ensures Dot(IncidenceRow(edges, v), Constant(|edges|, 1.0)) == |Incidence(edges, v)| as real
  {
    if edges != [] {
      var n := |edges| - 1;
      IncidenceRowSum(edges[..n], v);
      assert IncidenceRow(edges, v)[..n] == IncidenceRow(edges[..n], v);
      assert Constant(|edges|, 1.0)[..n] == Constant(n, 1.0);
    }
  }

  lemma {:induction false} NegatedDot(a: seq<real>, x: seq<real>)
    requires |a| == |x|
    ensures Dot(Negated(a), x) == -Dot(a, x)
  {
    if a != [] {
      var n := |a| - 1;
      NegatedDot(a[..n], x[..n]);
      assert Negated(a)[..n] == Negated(a[..n]);
    }
  }

  lemma {:induction false} DotZero(a: seq<real>)
    ensures Dot(a, Constant(|a|, 0.0)) == 0.0
  {
    if a != [] {
      var n := |a| - 1;
      DotZero(a[..n]);
      assert Constant(|a|, 0.0)[..n] == Constant(n, 0.0);
    }
  }

  /** A vertex of some edge has a nonzero entry in its constraint row. */
  lemma RowHasNonzero(edges: seq<Edge>, v: string)
    requires v in UnionOf(edges)
    ensures exists i :: 0 <= i < |edges| && IncidenceRow(edges, v)[i] != 0.0
    ensures |Incidence(edges, v)| >= 1
  {
    UnionMembership(edges, v);
    var i :| 0 <= i < |edges| && v in edges[i].vertices;
    IncidenceRowAt(edges, v, i);
    assert i in Incidence(edges, v);
  }

  /** The cover row of a vertex of the graph holds for weight 1 on every
      edge: the vertex lies in at least one edge. */
  lemma CoverRowSatisfied(edges: seq<Edge>, vs: seq<string>, k: nat)
    requires k < |vs| && vs[k] in UnionOf(edges)
    ensures |CoverRows(edges, vs)[k]| == |edges|
    ensures Dot(CoverRows(edges, vs)[k], Constant(|edges|, 1.0)) <= -1.0
  {
    var ones := Constant(|edges|, 1.0);
    CoverRowsAt(edges, vs, k);
    RowHasNonzero(edges, vs[k]);
    IncidenceRowSum(edges, vs[k]);
    NegatedDot(IncidenceRow(edges, vs[k]), ones);
  }

  /** Weight 1 on every edge covers every vertex of the graph. */
  lemma CoverAllOnesFeasible(edges: seq<Edge>, vs: seq<string>)
    requires forall k :: 0 <= k < |vs| ==> vs[k] in UnionOf(edges)
    ensures Feasible(CoverProgram(edges, vs), Constant(|edges|, 1.0))
  {
    forall k | 0 <= k < |vs|
      ensures |CoverRows(edges, vs)[k]| == |edges|
      ensures Dot(CoverRows(edges, vs)[k], Constant(|edges|, 1.0)) <= -1.0
    {
      CoverRowSatisfied(edges, vs, k);
    }
  }

  /** The packing row of any vertex holds for weight 0 on every edge. */
  lemma PackingRowSatisfied(edges: seq<Edge>, vs: seq<string>, k: nat)
    requires k < |vs|
    ensures |PackingRows(edges, vs)[k]| == |edges|
    ensures Dot(PackingRows(edges, vs)[k], Constant(|edges|, 0.0)) <= 1.0
  {
    PackingRowsAt(edges, vs, k);
    DotZero(PackingRows(edges, vs)[k]);
  }

  /** Weight 0 on every edge is a packing. */
  lemma PackingZeroFeasible(edges: seq<Edge>, vs: seq<string>)
    ensures Feasible(PackingProgram(edges, vs), Constant(|edges|, 0.0))
  {
    forall k | 0 <= k < |vs|
      ensures |PackingRows(edges, vs)[k]| == |edges|
      ensures Dot(PackingRows(edges, vs)[k], Constant(|edges|, 0.0)) <= 1.0
    {
      PackingRowSatisfied(edges, vs, k);
    }
  }

  /** 1.0 ** exponent: a power of one is one for every exponent. */
  function PowOne(exponent: real): real {
    1.0
  }

  /** QuerySolver: computes rho*, tau* and the AGM bound of the hypergraph it
      holds. None of its methods modifies the hypergraph. */
  class QuerySolver {
    const hypergraph: Hypergraph

    constructor(hypergraph: Hypergraph)
      ensures this.hypergraph == hypergraph
    {
      this.hypergraph := hypergraph;
    }

    /** One constraint row: zeros, then 1.0 at each edge holding `vertex`. */
    method ConstraintRow(vertex: string) returns (row: seq<real>)
      ensures row == IncidenceRow(hypergraph.edges, vertex)
    {
      var nEdges := hypergraph.EdgeCount();
      var constraint := new real[nEdges](_ => 0.0);
      var containing := hypergraph.EdgesContainingVertex(vertex);
      assert constraint[..] == Marked(nEdges, containing[..0]);
      for j := 0 to |containing|
        invariant constraint[..] == Marked(nEdges, containing[..j])
      {
        var edgeIdx := containing[j];
        assert edgeIdx in containing;
        MarkOne(nEdges, containing[..j], edgeIdx);
        constraint[edgeIdx] := 1.0;
        assert containing[..j + 1] == containing[..j] + [edgeIdx];
      }
      assert containing[..|containing|] == containing;
      MarkedIncidence(hypergraph.edges, vertex);
      row := constraint[..];
    }

    /** The A_ub and b_ub of the cover program: for each vertex in turn its
        negated constraint row, and -1.0. */
    method CoverConstraints(vertices: seq<string>) returns (rows: seq<seq<real>>, rhs: seq<real>)
      ensures rows == CoverRows(hypergraph.edges, vertices)
      ensures rhs == Constant(|vertices|, -1.0)
    {
      rows := [];
      rhs := [];
      for k := 0 to |vertices|
        invariant rows == CoverRows(hypergraph.edges, vertices[..k])
        invariant rhs == Constant(k, -1.0)
      {
        assert vertices[..k + 1][..k] == vertices[..k];
        var constraint := ConstraintRow(vertices[k]);
        rows := rows + [Negated(constraint)];
        rhs := rhs + [-1.0];
      }
      assert vertices[..|vertices|] == vertices;
    }

    /** The A_ub and b_ub of the packing program: for each vertex in turn its
        constraint row, and 1.0. */
    method PackingConstraints(vertices: seq<string>) returns (rows: seq<seq<real>>, rhs: seq<real>)
      ensures rows == PackingRows(hypergraph.edges, vertices)
      ensures rhs == Constant(|vertices|, 1.0)
    {
      rows := [];
      rhs := [];
      for k := 0 to |vertices|
        invariant rows == PackingRows(hypergraph.edges, vertices[..k])
        invariant rhs == Constant(k, 1.0)
      {
        assert vertices[..k + 1][..k] == vertices[..k];
        var constraint := ConstraintRow(vertices[k]);
        rows := rows + [constraint];
        rhs := rhs + [1.0];
      }
      assert vertices[..|vertices|] == vertices;
    }

    /** solve_fractional_edge_cover: 0.0 for a graph without vertices or
        edges, whatever the LP solver would say; otherwise the optimum of the
        cover program over the sorted vertices, or CoverFailed. */
    method SolveFractionalEdgeCover(linprog: Oracle) returns (r: Result<real, SolverError>)
      ensures hypergraph.vertices == {} || hypergraph.edges == [] ==> r == Ok(0.0)
      ensures hypergraph.vertices != {} && hypergraph.edges != [] ==>
                var result := linprog(CoverProgram(hypergraph.edges, SortedList(hypergraph.vertices)));
                r == if result.success then Ok(result.fun) else Err(CoverFailed)
    {
      var nVertices := hypergraph.VertexCount();
      var nEdges := hypergraph.EdgeCount();
      if nVertices == 0 || nEdges == 0 {
        return Ok(0.0);
      }
      var vertices := hypergraph.VerticesList();
      var rows, rhs := CoverConstraints(vertices);
      var c := Constant(nEdges, 1.0);
      var bounds := Constant(nEdges, Bound(0.0, None));
      var lp := LinearProgram(c, rows, rhs, bounds);
      assert lp == CoverProgram(hypergraph.edges, SortedList(hypergraph.vertices));
      var result := linprog(lp);
      if result.success {
        r := Ok(result.fun);
      } else {
        r := Err(CoverFailed);
      }
    }

    /** solve_fractional_edge_packing: 0.0 for a graph without vertices or
        edges, whatever the LP solver would say; otherwise the negated
        optimum of the packing program over the sorted vertices, or
        PackingFailed. */
    method SolveFractionalEdgePacking(linprog: Oracle) returns (r: Result<real, SolverError>)
      ensures hypergraph.vertices == {} || hypergraph.edges == [] ==> r == Ok(0.0)
      ensures hypergraph.vertices != {} && hypergraph.edges != [] ==>
                var result := linprog(PackingProgram(hypergraph.edges, SortedList(hypergraph.vertices)));
                r == if result.success then Ok(-result.fun) else Err(PackingFailed)
    {
      var nVertices := hypergraph.VertexCount();
      var nEdges := hypergraph.EdgeCount();
      if nVertices == 0 || nEdges == 0 {
        return Ok(0.0);
      }
      var vertices := hypergraph.VerticesList();
      var rows, rhs := PackingConstraints(vertices);
      var c := Constant(nEdges, -1.0);
      var bounds := Constant(nEdges, Bound(0.0, None));
      var lp := LinearProgram(c, rows, rhs, bounds);
      assert lp == PackingProgram(hypergraph.edges, SortedList(hypergraph.vertices));
      var result := linprog(lp);
      if result.success {
        r := Ok(-result.fun);
      } else {
        r := Err(PackingFailed);
      }
    }

    /** compute_agm_bound: 1.0 without edges; otherwise the product of
        1.0 ** (1.0 / size) over the edges, which is 1.0, unless some edge
        has no vertices and the division fails. */
    method ComputeAgmBound() returns (r: Result<real, SolverError>)
      ensures hypergraph.edges == [] ==> r == Ok(1.0)
      ensures r.Ok? <==> forall i :: 0 <= i < |hypergraph.edges| ==> hypergraph.edges[i].vertices != {}
      ensures r.Ok? ==> r.value == 1.0
      ensures r.Err? ==> r.error == ZeroDivision
    {
      var nEdges := hypergraph.EdgeCount();
      if nEdges == 0 {
        return Ok(1.0);
      }
      var product := 1.0;
      for i := 0 to nEdges
        invariant product == 1.0
        invariant forall j :: 0 <= j < i ==> hypergraph.edges[j].vertices != {}
      {
        var edgeSize := hypergraph.EdgeSize(i).value;
        if edgeSize == 0 {
          return Err(ZeroDivision);
        }
        product := product * PowOne(1.0 / edgeSize as real);
      }
      r := Ok(product);
    }
  }
}
