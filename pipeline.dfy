/** The end-to-end flow the integration tests drive: parse a query, build
    its hypergraph, then compute rho*, tau* and the AGM bound. */
module Pipeline {
  import opened Wrappers
  import opened Strings
  import opened Datalog
  import opened Hypergraphs
  import opened Solver

  /** What the flow reports for one query. */
  datatype Analysis = Analysis(
    variables: set<string>, vertexCount: nat, edgeCount: nat, rank: nat,
    rho: real, tau: real, agm: real)

  /** The exceptions the flow lets through: the parser's ValueError, or one
      of the solver's errors. */
  datatype PipelineError = ParseFailed(parseError: ParseError) | SolveFailed(solveError: SolverError)

  /** The relations parse_query returns for `text`, or its error. */
  function Parsed(text: string): Result<seq<Relation>, ParseError> {
    ParseLines(QueryLines(text), ParseRelation)
  }

  /** Every relation of a parsed query has at least one argument, so every
      edge of its hypergraph has at least one vertex. */
  lemma ParsedEdgesNonEmpty(text: string)
    requires Parsed(text).Ok?
    ensures var edges := EdgesOf(Parsed(text).value);
            forall i :: 0 <= i < |edges| ==> edges[i].vertices != {}
  {
    var rels := Parsed(text).value;
    ParsedRelationsWellFormed(text);
    forall i | 0 <= i < |rels| ensures EdgesOf(rels)[i].vertices != {} {
      assert rels[i].args[0] in EdgeOf(rels[i]).vertices;
    }
  }

  /** Over the hypergraph of any relations, weight 1 on every edge satisfies
      the cover program built on the sorted vertices. */
  lemma RelationsCoverFeasible(relations: seq<Relation>)
    ensures var edges := EdgesOf(relations);
            Feasible(CoverProgram(edges, SortedList(Variables(relations))), Constant(|edges|, 1.0))
  {
    var edges := EdgesOf(relations);
    var vs := SortedList(Variables(relations));
    UnionOfEdges(relations);
    assert forall k :: 0 <= k < |vs| ==> vs[k] in UnionOf(edges);
    CoverAllOnesFeasible(edges, vs);
  }

  /** Parse `text`, build its hypergraph and solve it with `linprog`. A
      parse error passes through; otherwise the counts describe the parsed
      relations, the variables the parser collects are the hypergraph's
      vertices, the AGM bound is 1.0 and never fails, and rho* and tau* are
      what the LP solver reports on the two programs. */
  method Analyse(text: string, linprog: Oracle) returns (r: Result<Analysis, PipelineError>)
    ensures Parsed(text).Err? ==> r == Err(ParseFailed(Parsed(text).error))
    ensures r.Ok? ==> Parsed(text).Ok?
    ensures r.Ok? ==>
              var rels := Parsed(text).value;
              && r.value.variables == Variables(rels)
              && r.value.vertexCount == |Variables(rels)|
              && r.value.edgeCount == |rels|
              && r.value.agm == 1.0
    ensures r.Err? && r.error.SolveFailed? ==> r.error.solveError != ZeroDivision
    ensures Parsed(text).Ok? && Parsed(text).value == [] ==> r.Ok? && r.value.rho == 0.0 && r.value.tau == 0.0
    ensures Parsed(text).Ok? && Parsed(text).value != [] ==>
              var edges := EdgesOf(Parsed(text).value);
              var vs := SortedList(Variables(Parsed(text).value));
              var cover := linprog(CoverProgram(edges, vs));
              var packing := linprog(PackingProgram(edges, vs));
              && (r.Ok? <==> cover.success && packing.success)
              && (r.Ok? ==> r.value.rho == cover.fun && r.value.tau == -packing.fun)
              && (!cover.success ==> r == Err(SolveFailed(CoverFailed)))
  {
    var parser := new DatalogParser();
    var parsed := parser.ParseQuery(text);
    if parsed.Err? {
      return Err(ParseFailed(parsed.error));
    }
    var relations := parsed.value;
    var variables := parser.GetAllVariables(relations);
    var graph := new Hypergraph();
    graph.FromRelations(relations);
    ParsedEdgesNonEmpty(text);
    UnionEmpty(EdgesOf(relations));
    UnionOfEdges(relations);
    var solver := new QuerySolver(graph);
    var rho := solver.SolveFractionalEdgeCover(linprog);
    if rho.Err? {
      return Err(SolveFailed(rho.error));
    }
    var tau := solver.SolveFractionalEdgePacking(linprog);
    if tau.Err? {
      return Err(SolveFailed(tau.error));
    }
    var agm := solver.ComputeAgmBound();
    r := Ok(Analysis(variables, graph.VertexCount(), graph.EdgeCount(), graph.Rank(),
                     rho.value, tau.value, agm.value));
  }
}
