# Query quantity calculator: parser, hypergraph and LP formulation in Dafny

This project models the non-UI core of the query quantity calculator. The
calculator reads a conjunctive query written as Datalog lines such as
`R(a, b)`, builds the query's hypergraph, and computes three quantities:

- the fractional edge cover number rho*;
- the fractional edge packing number tau*;
- an "AGM bound".

rho* and tau* are each computed by one linear program. The model has three
components.

- **DatalogParser** (`parser.py`) is modelled in `datalog.dfy`.
  - The line pattern `^([A-Za-z][A-Za-z0-9_]*)\s*\(\s*([^)]+)\s*\)$` is a
    deterministic recogniser, `MatchRelation`. It is proved sound and
    complete against `PatternMatches`, a declarative reading of the
    pattern that allows any split of the whitespace.
  - `ReMatch` states which of those readings `re.match` takes. The name is
    the longest identifier prefix. The `\s*` after "(" takes as much
    whitespace as it can while `[^)]+` still gets a character, and the
    `\s*` before ")" is empty. So the group is the parenthesised text
    without its leading whitespace. Text that is all whitespace leaves its
    last character as the group.
  - The recogniser's groups are proved to be exactly the `ReMatch`
    reading, and that reading is proved unique. Every other reading of a
    line gives the same arguments after `split(',')` and `strip()`. So
    `ParseRelation` is pinned to the name and arguments of any reading.
  - `parse_query` is the class method `DatalogParser.ParseQuery`. It is
    proved equal to a recursive walk, `ParseLines`, and the walk is
    characterised by several lemmas:
    - success exactly when every non-blank line matches;
    - one relation per non-blank line, in line order;
    - otherwise the error of the first line that does not match.
  - Python's `str.strip`, `str.split` and the whitespace test shared by
    `strip()` and `\s` live in `strings.dfy`.
- **Hypergraph** (`src/query_quantity_calculator/hypergraph.py:9-48`, and the
  identical lines 9-48 of the root `hypergraph.py`) is modelled in
  `hypergraph.dfy`. One model serves both copies, so the table below cites
  either copy.
  - It is a class with a vertex set and an ordered edge list.
  - `from_relations` rebuilds both fields. Its postcondition pins down the
    new state: exactly the edges and the variables of the given relations.
  - The accessors are functions that read the object.
  - `sorted` is Python's code-point order on strings, defined as `LexLess`.
    It is proved a strict total order, and the ascending listing of a set
    is proved unique.
- **QuerySolver** (`src/query_quantity_calculator/solver.py`) is modelled in
  `solver.dfy`.
  - The constraint rows are built in loops, and each row is an array
    updated in place, as in the source.
  - `scipy.optimize.linprog` is a parameter of type `Oracle`, a function
    from a linear program to a success flag and an optimum.
  - What is proved is everything around the solver call:
    - the exact program that is handed to the solver: shape, entries,
      signs, right-hand sides, objective and bounds;
    - the short-circuit to 0.0 on an empty graph;
    - the error on solver failure;
    - the negation of the packing optimum;
    - the value of the AGM product.
  - The programs are also proved feasible. Weight 1 on every edge satisfies
    every cover row, because each vertex lies in some edge. Weight 0
    satisfies every packing row.

`pipeline.dfy` follows the integration tests (`tests/test_integration.py`).
It parses a query, builds its hypergraph and solves it. It proves two facts
about that flow:

- for a query that parses, the AGM bound is always 1.0 and never raises,
  since every parsed relation has an argument;
- the variables the parser collects are the hypergraph's vertices.

`parser_examples.dfy` states and proves what the recogniser yields on lines
from the parser tests.

Errors are values. `Result` and `Option` live in `wrappers.dfy`.

| Python | Dafny |
|---|---|
| `ValueError("Invalid relation format: <line>")` | `InvalidRelationFormat(line)` |
| `IndexError` | `LookupError.IndexError` |
| the two `RuntimeError`s | `CoverFailed` and `PackingFailed` |
| the `ZeroDivisionError` of `1.0 / 0` | `ZeroDivision` |

## Model

| member | source | states |
|---|---|---|
| Strings.LStrip | parser.py:12 | the result is a suffix of the input and does not start with whitespace |
| Strings.RStrip | parser.py:12 | the result is a prefix of the input and does not end with whitespace |
| Strings.LStripDropsSpace | parser.py:12 | lstrip removes only whitespace |
| Strings.RStripDropsSpace | parser.py:12 | rstrip removes only whitespace |
| Strings.Strip | parser.py:11-13 | the stripped line has no whitespace at either end, and it is empty exactly when the line is all whitespace (the blank-line test) |
| Strings.StripInfix | parser.py:12 | the input is the stripped text with a whitespace run on each side |
| Strings.StripIdempotent | parser.py:11-12 | stripping twice equals stripping once |
| Strings.StripBlank | parser.py:13 | stripping leaves nothing exactly when the text is all whitespace |
| Strings.IsSpace | parser.py:7-12 | the characters str.isspace() accepts, which the `\s` of a str pattern also matches; Strip and the lemmas on it give it meaning |
| Strings.LStripPad | parser.py:22 | whitespace in front of a text does not change its lstrip |
| Strings.RStripPad | parser.py:22 | whitespace after a text does not change its rstrip |
| Strings.StripPad | parser.py:22 | whitespace on both sides of a text does not change its strip |
| Strings.AllSpaceConcat | parser.py:11-13 | a concatenation is all whitespace exactly when both parts are |
| Strings.IndexOf | parser.py:11 | the first occurrence of the separator, or the length when there is none |
| Strings.Split | parser.py:11 | str.split on one character yields at least one piece |
| Strings.SplitPieces | parser.py:22 | no piece holds the separator, and every character of a piece comes from the text |
| Strings.SplitPadLeft | parser.py:22 | a prefix without the separator joins the first piece of the split |
| Strings.SplitPadRight | parser.py:22 | a suffix without the separator joins the last piece of the split |
| Strings.SplitPadBoth | parser.py:22 | text without the separator on both sides keeps the number of pieces and joins the first and last pieces |
| Strings.JoinSplit | parser.py:11 | joining the pieces of a split with the separator gives back the text |
| Strings.SplitJoin | parser.py:22 | splitting the join of separator-free pieces gives back the pieces |
| Strings.SplitCons | parser.py:22 | a separator-free piece, the separator and a rest split into the piece followed by the pieces of the rest |
| Strings.LexLess | src/query_quantity_calculator/hypergraph.py:42 | Python's `<` on str: code-point lexicographic order with a proper prefix first; the lemmas below prove it a strict total order |
| Strings.LexIrreflexive | src/query_quantity_calculator/hypergraph.py:42 | string `<` is irreflexive |
| Strings.LexTransitive | src/query_quantity_calculator/hypergraph.py:42 | string `<` is transitive |
| Strings.LexTotal | src/query_quantity_calculator/hypergraph.py:42 | any two distinct strings are ordered one way |
| Strings.LexAsymmetric | src/query_quantity_calculator/hypergraph.py:42 | string `<` is asymmetric |
| Strings.LeastExists | src/query_quantity_calculator/hypergraph.py:42 | every non-empty finite set of strings has a least element |
| Strings.LeastUnique | src/query_quantity_calculator/hypergraph.py:42 | the least element is unique |
| Strings.SortedList | src/query_quantity_calculator/hypergraph.py:42 | sorted(list(s)) has every element of the set once, in strictly ascending order |
| Strings.SortedListUnique | src/query_quantity_calculator/hypergraph.py:42 | every strictly ascending listing of the set equals SortedList |
| Datalog.WordPrefixLength | parser.py:7 | the longest run of `[A-Za-z0-9_]` at the start of the line |
| Datalog.PatternMatches | parser.py:7 | the pattern read declaratively: name, whitespace, "(", whitespace, a non-empty group without ")", whitespace, ")", with the whitespace split left open |
| Datalog.ReMatch | parser.py:7-21 | the reading re.match takes: the trailing whitespace before ")" is empty, and the group starts with a non-whitespace character unless it is one character long |
| Datalog.MatchRelation | parser.py:7-21 | the recogniser is sound: whenever it yields a name and a group, they are the groups of the re.match reading, and so the line matches the pattern |
| Datalog.MatchSound | parser.py:7 | the pieces the recogniser reads off a line reassemble into a match of the pattern |
| Datalog.MatchComplete | parser.py:7-22 | the recogniser is complete: whenever the line matches the pattern, the recogniser accepts it with the same name; its group is the re.match group, and any reading's group gives the same arguments |
| Datalog.CompleteFrom | parser.py:7-22 | for one explicit reading of a line: the recogniser accepts it with that name, its group gives the same arguments, and it is that group when the reading is the re.match one |
| Datalog.GroupOfInner | parser.py:7-21 | whitespace followed by a group that starts as re.match takes it yields exactly that group |
| Datalog.ReMatchUnique | parser.py:7-21 | a line has at most one re.match reading: the name and the group are determined by the line |
| Datalog.Assemble | parser.py:7 | a name, whitespace, "(", whitespace, a non-empty group without ")" and ")" make a match |
| Datalog.LStripSplit | parser.py:7 | a text is its leading whitespace followed by its lstrip |
| Datalog.InnerSplit | parser.py:7 | the parenthesised text is whitespace followed by the chosen group |
| Datalog.InnerSplitBlank | parser.py:7 | when the parenthesised text is all whitespace, its last character can serve as the group |
| Datalog.WordPrefixOf | parser.py:7 | an identifier followed by a non-word character is the longest word prefix |
| Datalog.LStripSpacePrefix | parser.py:7 | lstrip of whitespace followed by a text that starts with "(" is that text |
| Datalog.ReadBack | parser.py:7 | on a matching line, the recogniser reads back the same name and parenthesised text |
| Datalog.SplitArguments | parser.py:21-22 | one argument per comma-separated piece, each piece stripped |
| Datalog.SplitArgumentsPad | parser.py:7-22 | whitespace around the group changes no argument, so every split of the pattern's whitespace gives the same arguments |
| Datalog.SplitArgumentsWellFormed | parser.py:7 | the arguments of a match contain neither "," nor ")", and there is at least one |
| Datalog.ParseRelation | parser.py:16-24 | a stripped line gives a relation exactly when it matches the pattern; then for every reading of the line the relation is its name (group 1) with the stripped comma-pieces of its group 2; the name is an identifier and the arguments are well formed |
| Datalog.QueryLines | parser.py:11 | the lines parse_query walks: the stripped text split at "\n"; BlankQuery and ParseLinesOk state what comes of them |
| Datalog.ParseLines | parser.py:10-26 | the walk of parse_query over the lines, characterised by ParseLinesOk, ParseLinesValue, ParseLinesErr and ParseLinesStep |
| Datalog.Message | parser.py:18 | the text of the ValueError: "Invalid relation format: " followed by the stripped line |
| Datalog.NonBlankLines | parser.py:11-14 | the stripped, non-blank lines, none of them empty |
| Datalog.RelationsOf | parser.py:20-24 | one relation per accepted line, in line order |
| Datalog.AllMatchCons | parser.py:16-18 | every line is accepted exactly when the first one is and every other one is |
| Datalog.ParseLinesOk | parser.py:9-26 | parse_query succeeds exactly when every non-blank line matches |
| Datalog.ParseLinesValue | parser.py:9-26 | on success, the result has one relation per non-blank line, in line order |
| Datalog.ParseLinesErr | parser.py:16-18 | on failure, the error names the first non-blank line that does not match, and every earlier line matches |
| Datalog.ParseLinesStep | parser.py:12-24 | a blank line is skipped; a rejected line raises; an accepted line is prepended to the rest |
| Datalog.PrependPrepend | parser.py:24 | appending twice equals appending the concatenation |
| Datalog.BlankQuery | parser.py:11-14 | an empty or all-whitespace query parses to the empty list |
| Datalog.ParsedRelationsWellFormed | parser.py:7-24 | every parsed relation has an identifier for a name and at least one argument, none containing "," or ")" |
| Datalog.Variables | parser.py:28-32 | the union of the argument lists, characterised by VariablesMembership |
| Datalog.VariablesMembership | parser.py:28-32 | a name is a variable exactly when some relation has it as an argument |
| Datalog.DatalogParser.constructor | parser.py:6-7 | the parser holds the relation pattern |
| Datalog.DatalogParser.ParseQuery | parser.py:9-26 | parse_query is the line walk over the stripped text split at "\n", and an all-whitespace query gives [] |
| Datalog.DatalogParser.ParseEachLine | parser.py:11-26 | the loop over the lines equals the line walk: blank lines skipped, the first rejected line raises |
| Datalog.DatalogParser.GetAllVariables | parser.py:28-32 | the result is the union of all argument lists, and it is empty for no relations |
| Hypergraphs.EdgeOf | src/query_quantity_calculator/hypergraph.py:19-21 | the edge keeps the relation's name, and its vertex set is the relation's arguments with repeats collapsed |
| Hypergraphs.EdgesOf | src/query_quantity_calculator/hypergraph.py:18-21 | one edge per relation, in input order |
| Hypergraphs.UnionOf | src/query_quantity_calculator/hypergraph.py:18-21 | the union of the edges' vertex sets, characterised by UnionMembership and UnionEmpty |
| Hypergraphs.UnionMembership | src/query_quantity_calculator/hypergraph.py:20 | a vertex is in the union exactly when some edge holds it |
| Hypergraphs.EdgeWithinUnion | hypergraph.py:19-21 | every edge lies inside the vertex set |
| Hypergraphs.AllEdgesWithinUnion | src/query_quantity_calculator/hypergraph.py:19-21 | every edge is a subset of the vertex set and is no larger than it |
| Hypergraphs.UnionEmpty | src/query_quantity_calculator/hypergraph.py:15-21 | the vertex set is empty exactly when every edge is |
| Hypergraphs.UnionOfEdges | hypergraph.py:18-21 | the vertices built from relations are the relations' variables |
| Hypergraphs.SubsetCardinality | src/query_quantity_calculator/hypergraph.py:32 | a subset is no larger than its superset |
| Hypergraphs.MaxEdgeSize | src/query_quantity_calculator/hypergraph.py:29-32 | 0 for no edges; otherwise it bounds every edge size and is attained by some edge |
| Hypergraphs.MaxEdgeSizeWithinUnion | hypergraph.py:29-32 | the largest edge is no larger than the vertex set |
| Hypergraphs.Incidence | hypergraph.py:34-39 | exactly the indices of the edges holding the vertex, strictly increasing |
| Hypergraphs.IncidenceStep | src/query_quantity_calculator/hypergraph.py:36-38 | each edge appends its index exactly when it holds the vertex |
| Hypergraphs.IncidenceMembership | src/query_quantity_calculator/hypergraph.py:34-39 | an index is listed exactly when its edge holds the vertex |
| Hypergraphs.IncidenceOutside | src/query_quantity_calculator/hypergraph.py:34-39 | a vertex of no edge gets the empty list |
| Hypergraphs.EdgeAt | hypergraph.py:45-48 | Python list indexing: defined exactly for -count <= i < count, counting from the end for negative i, IndexError otherwise |
| Hypergraphs.Hypergraph.constructor | src/query_quantity_calculator/hypergraph.py:10-12 | a new graph has no vertices and no edges |
| Hypergraphs.Hypergraph.FromRelations | src/query_quantity_calculator/hypergraph.py:14-21 | afterwards the edges are exactly one (name, set(args)) per relation in order, and the vertices are exactly the relations' variables; nothing of the previous graph survives |
| Hypergraphs.Hypergraph.VertexCount | src/query_quantity_calculator/hypergraph.py:23-24 | on a valid graph the count is 0 exactly when every edge is empty, and it bounds every edge size |
| Hypergraphs.Hypergraph.EdgeCount | src/query_quantity_calculator/hypergraph.py:26-27 | the count is 0 exactly when there are no edges, and then a valid graph has no vertices |
| Hypergraphs.Hypergraph.Rank | src/query_quantity_calculator/hypergraph.py:29-32 | 0 with no edges; otherwise the largest edge size; never more than the vertex count |
| Hypergraphs.Hypergraph.EdgesContainingVertex | src/query_quantity_calculator/hypergraph.py:34-39 | exactly the indices of the edges holding the vertex, strictly increasing, and [] for a vertex the graph does not have |
| Hypergraphs.Hypergraph.VerticesList | src/query_quantity_calculator/hypergraph.py:41-42 | every vertex exactly once, in ascending code-point order |
| Hypergraphs.Hypergraph.EdgeSize | src/query_quantity_calculator/hypergraph.py:44-45 | the size of the indexed edge, counting from the end for a negative index; IndexError exactly outside [-count, count); never more than the rank |
| Hypergraphs.Hypergraph.EdgeName | src/query_quantity_calculator/hypergraph.py:47-48 | the name of the indexed edge, counting from the end for a negative index; IndexError exactly outside [-count, count) |
| Solver.Constant | src/query_quantity_calculator/solver.py:34-35 | `[x] * n` has n entries, all equal to x |
| Solver.Message | src/query_quantity_calculator/solver.py:42 | the texts of the cover RuntimeError raised here, of the packing one (line 74) and of the ZeroDivisionError of line 85 |
| Solver.IncidenceRow | src/query_quantity_calculator/solver.py:25-29 | a vertex's 0/1 row over the edges; it has one entry per edge, and IncidenceRowAt gives each entry |
| Solver.IncidenceRowAt | src/query_quantity_calculator/solver.py:25-29 | entry i of a vertex's row is 1.0 when the vertex is in edge i and 0.0 otherwise |
| Solver.Negated | src/query_quantity_calculator/solver.py:31 | `[-x for x in constraint]`: same length, and NegatedDot relates its products |
| Solver.CoverRows | src/query_quantity_calculator/solver.py:24-32 | A_ub of the cover program: one row per vertex, given entry by entry by CoverRowsAt |
| Solver.CoverRowsAt | src/query_quantity_calculator/solver.py:24-31 | cover row k is the negated incidence row of the k-th sorted vertex |
| Solver.PackingRows | src/query_quantity_calculator/solver.py:56-64 | A_ub of the packing program: one row per vertex, given entry by entry by PackingRowsAt |
| Solver.PackingRowsAt | src/query_quantity_calculator/solver.py:56-63 | packing row k is the incidence row of the k-th sorted vertex |
| Solver.MarkedIncidence | src/query_quantity_calculator/solver.py:25-29 | marking the edges that hold a vertex gives its incidence row |
| Solver.CoverProgram | src/query_quantity_calculator/solver.py:21-37 | the program handed to linprog for rho*; CoverProgramShape and CoverAllOnesFeasible state what it is |
| Solver.PackingProgram | src/query_quantity_calculator/solver.py:53-69 | the program handed to linprog for tau*; PackingProgramShape and PackingZeroFeasible state what it is |
| Solver.PowOne | src/query_quantity_calculator/solver.py:85 | `1.0 ** y`, which is 1.0 for every finite y |
| Solver.CoverProgramShape | src/query_quantity_calculator/solver.py:24-37 | the cover program has one row per vertex and one column per edge; an entry is -1.0 exactly when the vertex is in the edge, else 0.0; every right-hand side is -1.0, every objective coefficient 1.0, every bound (0, None) |
| Solver.PackingProgramShape | src/query_quantity_calculator/solver.py:56-69 | the packing program has one row per vertex and one column per edge; an entry is 1.0 exactly when the vertex is in the edge, else 0.0; every right-hand side is 1.0, every objective coefficient -1.0, every bound (0, None) |
| Solver.IncidenceRowSum | src/query_quantity_calculator/solver.py:25-29 | the sum of a vertex's row is the number of edges that hold it |
| Solver.NegatedDot | src/query_quantity_calculator/solver.py:31 | a negated row gives the negated product |
| Solver.DotZero | src/query_quantity_calculator/solver.py:63 | every row has product 0 with the zero vector |
| Solver.RowHasNonzero | src/query_quantity_calculator/solver.py:24-29 | the row of a vertex of the graph has a nonzero entry |
| Solver.CoverRowSatisfied | src/query_quantity_calculator/solver.py:31-32 | weight 1 on every edge satisfies the cover row of any vertex of the graph |
| Solver.CoverAllOnesFeasible | src/query_quantity_calculator/solver.py:24-37 | weight 1 on every edge is feasible for the cover program |
| Solver.PackingRowSatisfied | src/query_quantity_calculator/solver.py:63-64 | weight 0 on every edge satisfies every packing row |
| Solver.PackingZeroFeasible | src/query_quantity_calculator/solver.py:56-69 | weight 0 on every edge is feasible for the packing program |
| Solver.QuerySolver.constructor | src/query_quantity_calculator/solver.py:8-9 | the solver holds the given hypergraph |
| Solver.QuerySolver.ConstraintRow | src/query_quantity_calculator/solver.py:25-29 | the row built in place is the vertex's 0/1 incidence row |
| Solver.QuerySolver.CoverConstraints | src/query_quantity_calculator/solver.py:21-32 | A_ub is the negated incidence row of each vertex in order, and b_ub is -1.0 per vertex |
| Solver.QuerySolver.PackingConstraints | src/query_quantity_calculator/solver.py:53-64 | A_ub is the incidence row of each vertex in order, and b_ub is 1.0 per vertex |
| Solver.QuerySolver.SolveFractionalEdgeCover | src/query_quantity_calculator/solver.py:11-42 | 0.0 when the graph has no vertices or no edges, whatever the LP solver is; otherwise the solver's optimum on the cover program over the sorted vertices, or CoverFailed when the solver fails |
| Solver.QuerySolver.SolveFractionalEdgePacking | src/query_quantity_calculator/solver.py:44-74 | 0.0 when the graph has no vertices or no edges, whatever the LP solver is; otherwise the negated optimum on the packing program, or PackingFailed when the solver fails |
| Solver.QuerySolver.ComputeAgmBound | src/query_quantity_calculator/solver.py:76-87 | 1.0 with no edges; it succeeds exactly when every edge is non-empty, and then the value is 1.0; otherwise ZeroDivision |
| Pipeline.ParsedEdgesNonEmpty | tests/test_integration.py:10-30 | every edge of a parsed query's hypergraph has a vertex |
| Pipeline.RelationsCoverFeasible | tests/test_integration.py:10-30 | weight 1 on every edge is feasible for the cover program of any relations' hypergraph |
| Pipeline.Analyse | tests/test_integration.py:265-278 | a parse error passes through; otherwise the parser's variables are the hypergraph's vertices, the counts are those of the parsed relations, the AGM bound is 1.0 and never fails, and rho* and tau* are the solver's answers on the two programs |
| ParserExamples.SpacedRelation | tests/test_parser.py:20-23 | `R( a , b )` gives R with arguments a and b |
| ParserExamples.SpacedMatch | tests/test_parser.py:20-23 | on `R( a , b )` the recogniser yields the name R and the group `a , b ` |
| ParserExamples.SpacedArgs | tests/test_parser.py:20-23 | the group `a , b ` splits into the arguments a and b |
| ParserExamples.EmptyParens | tests/test_parser.py:71-74 | `R()` is rejected |
| ParserExamples.LeadingDigit | tests/test_parser.py:76-79 | `123R(a, b)` is rejected |
| ParserExamples.AtInName | tests/test_parser.py:81-84 | `R@(a, b)` is rejected |
| ParserExamples.MissingParen | tests/test_parser.py:66-69 | `R(a, b` is rejected |
| ParserExamples.NoName | tests/test_parser.py:61-64 | `(a, b)` is rejected |
| ParserExamples.BlankArguments | parser.py:7 | `R( )` is accepted, with the single argument "" |

## Left out

- `create_visualization` in both hypergraph files is not modelled: it does plotly and networkx plotting with float layouts.
- `app.py` and `src/query_quantity_calculator/app.py` are not modelled. This covers the Streamlit UI, the display of exceptions and the "rho* x tau* <= |V|" check.
- The LP solve itself is not modelled. `linprog(..., method='highs')` is the `Oracle` parameter. No optimum value is proved, such as 1.5 for the triangle query. No relation between rho* and tau* is proved.
- Solver.QuerySolver.SolveFractionalEdgeCover: "linprog is not called on an empty graph" is stated as "the result does not depend on the oracle". A pure function parameter cannot record its calls.
- Solver.QuerySolver.SolveFractionalEdgePacking: the same as for the cover method.
- Floats are exact reals. This leaves out rounding, `-0.0` (e.g. `-result.fun` when the optimum is 0.0), NaN and the test tolerances.
- Solver.PowOne: `1.0 ** y` is 1.0 for every finite y, so the AGM product is modelled as exactly 1.0.
- The unused `vertex_to_index` dictionary (src/query_quantity_calculator/solver.py:19) is not modelled.
- Datalog.DatalogParser.constructor: the compiled regular expression is the recogniser function `ParseRelation`. The regex engine is not modelled. The recogniser is proved to agree with the pattern for a line without a trailing newline, which every stripped line is.
- Datalog.DatalogParser.ParseQuery: its loop is the separate method `ParseEachLine`. `ParseQuery` strips and splits the text, and `ParseEachLine` walks the lines.
- Python's mutable `set` and `list` objects are Dafny values. Aliasing between an edge's vertex set and a caller's set is not modelled. The source creates a fresh set per edge, so nothing shares them.
- Hypergraphs.EdgeAt: indices are Python `int`s and are unbounded here. Negative indices are modelled, and they wrap the way Python lists do. An index outside `[-count, count)` is IndexError.
- The `from .parser import DatalogParser` import path of `src/query_quantity_calculator/hypergraph.py` names `src/query_quantity_calculator/parser.py`, which is not part of this model. The root `parser.py` is modelled in its place.
- Strings are sequences of Dafny `char`s, which are Unicode scalar values. A Python `str` is a sequence of code points, so `sorted` and `strip` need no encoding. A Python `str` can also hold lone surrogates (U+D800 to U+DFFF), which no Dafny `char` can, so such strings are not modelled.
