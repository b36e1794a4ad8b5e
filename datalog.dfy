/** The query parser (class DatalogParser in parser.py): a line-oriented
    tokenizer that turns lines `Name(arg1, arg2, ...)` into relation
    descriptors, and the union of their arguments. */
module Datalog {
  import opened Wrappers
  import opened Strings

  /** One relation descriptor: the relation's name and its argument list. */
  datatype Relation = Relation(name: string, args: seq<string>)

  /** The ValueError raised for a line that does not match the pattern;
      `line` is the stripped line. */
  datatype ParseError = InvalidRelationFormat(line: string)

  /** The text of the ValueError. */
  function Message(e: ParseError): string {
    "Invalid relation format: " + e.line
  }

  // ---------------------------------------------------------------------
  // The pattern ^([A-Za-z][A-Za-z0-9_]*)\s*\(\s*([^)]+)\s*\)$
  // ---------------------------------------------------------------------

  predicate IsLetter(c: char) {
    'A' <= c <= 'Z' || 'a' <= c <= 'z'
  }

  predicate IsWordChar(c: char) {
    IsLetter(c) || '0' <= c <= '9' || c == '_'
  }

  /** [A-Za-z][A-Za-z0-9_]* */
  predicate IsIdentifier(s: string) {
    |s| >= 1 && IsLetter(s[0]) && forall i :: 1 <= i < |s| ==> IsWordChar(s[i])
  }

  /** The pattern read declaratively: `line` is the name, optional whitespace,
      "(", optional whitespace, the captured group (non-empty, no ")"),
      optional whitespace and ")", and nothing after it. */
  ghost predicate PatternMatches(line: string, name: string, group: string) {
    exists w1, w2, w3 :: Decomposes(line, name, w1, w2, group, w3)
  }

  /** One way of reading `line` against the pattern, with the whitespace runs
      w1, w2 and w3 made explicit. */
  ghost predicate Decomposes(line: string, name: string, w1: string, w2: string, group: string, w3: string) {
    IsIdentifier(name) && group != [] && ')' !in group
    && AllSpace(w1) && AllSpace(w2) && AllSpace(w3)
    && line == name + w1 + "(" + w2 + group + w3 + ")"
  }

  /** The reading re.match takes. The name cannot end early, since a word
      character cannot start `\s*\(`. The `\s*` after "(" takes all the
      whitespace it can while `[^)]+` still gets a character, so group 2
      starts with a non-whitespace character unless it is one character long.
      `[^)]+` runs up to the closing parenthesis, leaving the last `\s*`
      empty. */
  ghost predicate ReMatch(line: string, name: string, group: string) {
    (|group| == 1 || (group != [] && !IsSpace(group[0])))
    && exists w1, w2 :: Decomposes(line, name, w1, w2, group, [])
  }

  /** Length of the longest prefix of `s` made of [A-Za-z0-9_]. */
  function WordPrefixLength(s: string): (n: nat)
    ensures n <= |s|
    ensures forall i :: 0 <= i < n ==> IsWordChar(s[i])
    ensures n < |s| ==> !IsWordChar(s[n])
  {
    if s != [] && IsWordChar(s[0]) then 1 + WordPrefixLength(s[1..]) else 0
  }

  /** A deterministic recogniser for the pattern, giving groups 1 and 2 as the
      backtracking matcher does: the name is the longest identifier prefix;
      group 2 is the text between the parentheses without its leading
      whitespace (its trailing whitespace is kept, since `[^)]+` is greedy),
      except that all-whitespace text leaves its last character as the group. */
  function MatchRelation(line: string): (m: Option<(string, string)>)
    ensures m.Some? ==> ReMatch(line, m.value.0, m.value.1)
    ensures m.Some? ==> PatternMatches(line, m.value.0, m.value.1)
  {
    var n := WordPrefixLength(line);
    if n == 0 || !IsLetter(line[0]) then None
    else
      var paren := LStrip(line[n..]);
      if |paren| < 2 || paren[0] != '(' || paren[|paren| - 1] != ')' then None
      else
        var inner := paren[1..|paren| - 1];
        if inner == [] || ')' in inner then None
        else
          var group := if LStrip(inner) != [] then LStrip(inner) else inner[|inner| - 1..];
          LStripSplit(line[n..]);
          InnerSplit(inner, group);
          MatchSound(line, n, line[n..][..|line| - n - |paren|], paren, inner,
                     inner[..|inner| - |group|], group);
          Some((line[..n], group))
  }

  lemma AllSpacePrefix(s: string, k: nat)
    requires AllSpace(s) && k <= |s|
    ensures AllSpace(s[..k])
  {
    assert forall i :: 0 <= i < k ==> s[..k][i] == s[i];
  }

  /** `s` is its leading whitespace followed by LStrip(s). */
  lemma LStripSplit(s: string)
    ensures s == s[..|s| - |LStrip(s)|] + LStrip(s)
    ensures AllSpace(s[..|s| - |LStrip(s)|])
  {
    LStripDropsSpace(s);
  }

  /** The text between the parentheses is the whitespace the pattern skips,
      then group 2. */
  lemma InnerSplit(inner: string, group: string)
    requires inner != []
    requires group == if LStrip(inner) != [] then LStrip(inner) else inner[|inner| - 1..]
    ensures |group| <= |inner| && inner == inner[..|inner| - |group|] + group
    ensures AllSpace(inner[..|inner| - |group|]) && group != []
    ensures |group| == 1 || !IsSpace(group[0])
  {
    if LStrip(inner) == [] {
      InnerSplitBlank(inner);
    } else {
      LStripSplit(inner);
    }
  }

  /** Text between the parentheses that is all whitespace leaves its last
      character as group 2. */
  lemma InnerSplitBlank(inner: string)
    requires inner != [] && LStrip(inner) == []
    ensures inner == inner[..|inner| - 1] + inner[|inner| - 1..]
    ensures AllSpace(inner[..|inner| - 1])
  {
    LStripDropsSpace(inner);
    assert inner[..|inner|] == inner;
    AllSpacePrefix(inner, |inner| - 1);
  }

  /** The pieces a match is read into, put back together. */
  lemma Assemble(line: string, name: string, rest: string, w1: string, paren: string,
                 inner: string, w2: string, group: string)
    requires IsIdentifier(name) && group != [] && ')' !in group
    requires |group| == 1 || !IsSpace(group[0])
    requires AllSpace(w1) && AllSpace(w2)
    requires line == name + rest && rest == w1 + paren
    requires paren == "(" + inner + ")" && inner == w2 + group
    ensures ReMatch(line, name, group) && PatternMatches(line, name, group)
  {
    assert group + [] == group;
    assert line == name + w1 + "(" + w2 + group + [] + ")";
    assert Decomposes(line, name, w1, w2, group, []);
  }

  lemma NoParenSuffix(s: string, k: nat)
    requires ')' !in s && k <= |s|
    ensures ')' !in s[k..]
  {
    assert forall i :: 0 <= i < |s| - k ==> s[k..][i] == s[k + i];
  }

  lemma ParenSplit(paren: string, inner: string)
    requires |paren| >= 2 && paren[0] == '(' && paren[|paren| - 1] == ')'
    requires inner == paren[1..|paren| - 1]
    ensures paren == "(" + inner + ")"
  {
  }

  /** A line read as the longest identifier prefix `line[..n]`, whitespace
      `w1`, the parenthesised text `paren`, and inside it whitespace `w2`
      before group 2, matches the pattern. */
  lemma MatchSound(line: string, n: nat, w1: string, paren: string, inner: string,
                   w2: string, group: string)
    requires 0 < n <= |line| && IsLetter(line[0])
    requires forall i :: 0 <= i < n ==> IsWordChar(line[i])
    requires line[n..] == w1 + paren && AllSpace(w1)
    requires |paren| >= 2 && paren[0] == '(' && paren[|paren| - 1] == ')'
    requires inner == paren[1..|paren| - 1] && ')' !in inner
    requires inner == w2 + group && AllSpace(w2) && group != []
    requires |group| == 1 || !IsSpace(group[0])
    ensures ReMatch(line, line[..n], group) && PatternMatches(line, line[..n], group)
  {
    var name := line[..n];
    assert IsIdentifier(name);
    assert line == name + line[n..];
    NoParenSuffix(inner, |w2|);
    assert inner[|w2|..] == group;
    ParenSplit(paren, inner);
    Assemble(line, name, line[n..], w1, paren, inner, w2, group);
  }

  lemma {:induction false} WordPrefixOf(a: string, b: string)
    requires forall i :: 0 <= i < |a| ==> IsWordChar(a[i])
    requires b == [] || !IsWordChar(b[0])
    ensures WordPrefixLength(a + b) == |a|
    decreases |a|
  {
    if a != [] {
      assert (a + b)[1..] == a[1..] + b;
      WordPrefixOf(a[1..], b);
    } else {
      assert a + b == b;
    }
  }

  lemma LStripSpacePrefix(w: string, x: string)
    requires AllSpace(w)
    requires x != [] && !IsSpace(x[0])
    ensures LStrip(w + x) == x
  {
    LStripPad(w, x);
  }

  /** The pieces of a decomposed line, grouped as the recogniser reads them. */
  lemma Regroup(line: string, name: string, w1: string, w2: string, group: string, w3: string)
    requires line == name + w1 + "(" + w2 + group + w3 + ")"
    ensures line == name + (w1 + ("(" + (w2 + group + w3) + ")"))
  {
  }

  /** Reading a decomposed line back: the identifier prefix is the name and
      what follows it, left-stripped, is the parenthesised text. */
  lemma ReadBack(line: string, name: string, w1: string, paren: string)
    requires IsIdentifier(name) && AllSpace(w1)
    requires |paren| >= 1 && paren[0] == '('
    requires line == name + (w1 + paren)
    ensures 0 < |name| <= |line| && WordPrefixLength(line) == |name|
    ensures line[..|name|] == name && IsLetter(line[0])
    ensures LStrip(line[|name|..]) == paren
  {
    var tail := w1 + paren;
    assert tail[0] == (if w1 == [] then '(' else w1[0]);
    WordPrefixOf(name, tail);
    assert line[|name|..] == tail;
    LStripSpacePrefix(w1, paren);
  }

  lemma NoParenInside(w2: string, group: string, w3: string)
    requires ')' !in w2 && ')' !in group && ')' !in w3
    ensures ')' !in w2 + group + w3
  {
    forall c | c in w2 + group + w3 ensures c != ')' {
      assert c in w2 || c in group || c in w3;
    }
  }

  /** A line read against the pattern as `name`, `w1`, "(", `w2`, `group`,
      `w3`, ")": the recogniser accepts it with that name, its group 2 is the
      text between the parentheses without the whitespace in front of it, and
      it is `group` itself when `w3` is empty and `group` starts as ReMatch
      says. */
  lemma CompleteFrom(line: string, name: string, w1: string, w2: string, group: string, w3: string)
    requires Decomposes(line, name, w1, w2, group, w3)
    ensures MatchRelation(line).Some? && MatchRelation(line).value.0 == name
    ensures SplitArguments(MatchRelation(line).value.1) == SplitArguments(group)
    ensures w3 == [] && (|group| == 1 || !IsSpace(group[0])) ==> MatchRelation(line).value.1 == group
  {
    Regroup(line, name, w1, w2, group, w3);
    var inner := w2 + group + w3;
    var paren := "(" + inner + ")";
    ReadBack(line, name, w1, paren);
    assert ')' !in w2 && ')' !in w3;
    NoParenInside(w2, group, w3);
    assert paren[1..|paren| - 1] == inner;
    var g := MatchRelation(line).value.1;
    assert g == if LStrip(inner) != [] then LStrip(inner) else inner[|inner| - 1..];
    InnerSplit(inner, g);
    var w := inner[..|inner| - |g|];
    assert inner == w + g + [];
    SplitArgumentsPad(w, g, []);
    SplitArgumentsPad(w2, group, w3);
    if w3 == [] && (|group| == 1 || !IsSpace(group[0])) {
      assert inner == w2 + group;
      GroupOfInner(w2, group);
    }
  }

  /** Group 2 of whitespace `w2` followed by `group`, when `group` starts as
      ReMatch says, is `group`. */
  lemma GroupOfInner(w2: string, group: string)
    requires AllSpace(w2) && group != [] && (|group| == 1 || !IsSpace(group[0]))
    ensures var inner := w2 + group;
            (if LStrip(inner) != [] then LStrip(inner) else inner[|inner| - 1..]) == group
  {
    var inner := w2 + group;
    if !IsSpace(group[0]) {
      LStripSpacePrefix(w2, group);
    } else {
      AllSpaceConcat(w2, group);
      LStripPad(inner, []);
      assert inner + [] == inner;
      assert inner[|inner| - 1..] == group;
    }
  }

  /** The recogniser accepts every line the pattern matches, with the same
      name; its group 2 is the one re.match takes, and any other reading of
      the line yields the same arguments. */
  lemma MatchComplete(line: string, name: string, group: string)
    requires PatternMatches(line, name, group)
    ensures MatchRelation(line).Some? && MatchRelation(line).value.0 == name
    ensures ReMatch(line, name, group) ==> MatchRelation(line).value.1 == group
    ensures SplitArguments(MatchRelation(line).value.1) == SplitArguments(group)
  {
    if ReMatch(line, name, group) {
      var w1, w2 :| Decomposes(line, name, w1, w2, group, []);
      CompleteFrom(line, name, w1, w2, group, []);
    } else {
      var w1, w2, w3 :| Decomposes(line, name, w1, w2, group, w3);
      CompleteFrom(line, name, w1, w2, group, w3);
    }
  }

  /** A line has at most one reading as re.match takes it. */
  lemma ReMatchUnique(line: string, name: string, group: string, name': string, group': string)
    requires ReMatch(line, name, group) && ReMatch(line, name', group')
    ensures name == name' && group == group'
  {
    var w1, w2 :| Decomposes(line, name, w1, w2, group, []);
    var w1', w2' :| Decomposes(line, name', w1', w2', group', []);
    MatchComplete(line, name, group);
    MatchComplete(line, name', group');
  }

  // ---------------------------------------------------------------------
  // One line and the whole query
  // ---------------------------------------------------------------------

  /** Arguments as parse_query returns them: no argument holds "," or ")",
      or whitespace at either end, and there is at least one. */
  predicate WellFormedArgs(args: seq<string>) {
    |args| >= 1 &&
    forall k :: 0 <= k < |args| ==>
      ',' !in args[k] && ')' !in args[k] &&
      (args[k] == [] || (!IsSpace(args[k][0]) && !IsSpace(args[k][|args[k]| - 1])))
  }

  /** [arg.strip() for arg in group.split(',')] */
  function SplitArguments(group: string): (args: seq<string>)
    ensures |args| == |Split(group, ',')|
    ensures forall k :: 0 <= k < |args| ==> args[k] == Strip(Split(group, ',')[k])
  {
    var pieces := Split(group, ',');
    seq(|pieces|, k requires 0 <= k < |pieces| => Strip(pieces[k]))
  }

  lemma SplitArgumentsWellFormed(group: string)
    requires ')' !in group
    ensures WellFormedArgs(SplitArguments(group))
  {
    var pieces := Split(group, ',');
    var args := SplitArguments(group);
    SplitPieces(group, ',');
    forall k | 0 <= k < |args|
      ensures ',' !in args[k] && ')' !in args[k]
    {
      StripInfix(pieces[k]);
      var lead, trail :| pieces[k] == lead + args[k] + trail && AllSpace(lead) && AllSpace(trail);
      assert forall c :: c in args[k] ==> c in pieces[k];
    }
  }

  /** Whitespace around the text between the parentheses changes no
      argument: it joins the first or the last piece, and strip() drops it. */
  lemma SplitArgumentsPad(w: string, g: string, v: string)
    requires AllSpace(w) && AllSpace(v)
    ensures SplitArguments(w + g + v) == SplitArguments(g)
  {
    assert ',' !in w && ',' !in v by {
      assert forall i :: 0 <= i < |w| ==> IsSpace(w[i]);
      assert forall i :: 0 <= i < |v| ==> IsSpace(v[i]);
    }
    var p := Split(g, ',');
    var r := Split(w + g + v, ',');
    SplitPadBoth(w, g, v, ',', 0);
    forall k | 0 <= k < |p| ensures Strip(r[k]) == Strip(p[k]) {
      SplitPadBoth(w, g, v, ',', k);
      StripPad(if k == 0 then w else [], p[k], if k == |p| - 1 then v else []);
    }
  }

  /** One non-blank, stripped line: the relation it denotes, or None when it
      does not match the pattern. */
  function ParseRelation(line: string): (r: Option<Relation>)
    ensures r.Some? <==> exists name, group :: PatternMatches(line, name, group)
    ensures r.Some? ==> IsIdentifier(r.value.name) && WellFormedArgs(r.value.args)
    ensures forall name, group :: PatternMatches(line, name, group) ==>
              r == Some(Relation(name, SplitArguments(group)))
  {
    match MatchRelation(line)
    case None =>
      assert forall name, group :: !PatternMatches(line, name, group) by {
        forall name, group | PatternMatches(line, name, group) ensures false {
          MatchComplete(line, name, group);
        }
      }
      None
    case Some((name, group)) =>
      SplitArgumentsWellFormed(group);
      assert forall n, g :: PatternMatches(line, n, g) ==> n == name && SplitArguments(g) == SplitArguments(group) by {
        forall n, g | PatternMatches(line, n, g) ensures n == name && SplitArguments(g) == SplitArguments(group) {
          MatchComplete(line, n, g);
        }
      }
      Some(Relation(name, SplitArguments(group)))
  }

  /** The lines parse_query walks over: the stripped text split at "\n". */
  function QueryLines(text: string): seq<string> {
    Split(Strip(text), '\n')
  }

  /** Prefixes `rels` to a successful result; an error passes through. */
  function Prepend(rels: seq<Relation>, r: Result<seq<Relation>, ParseError>): Result<seq<Relation>, ParseError> {
    match r
    case Ok(rest) => Ok(rels + rest)
    case Err(e) => Err(e)
  }

  /** A recogniser for one non-blank, stripped line. The query walk below is
      stated over any recogniser; parse_query uses ParseRelation. */
  type LineParser = string -> Option<Relation>

  /** The lines in order: blank ones skipped, the first that `parse` rejects
      ends the parse with its error. */
  function ParseLines(lines: seq<string>, parse: LineParser): Result<seq<Relation>, ParseError> {
    if lines == [] then Ok([])
    else
      var line := Strip(lines[0]);
      if line == [] then ParseLines(lines[1..], parse)
      else
        match parse(line)
        case None => Err(InvalidRelationFormat(line))
        case Some(rel) => Prepend([rel], ParseLines(lines[1..], parse))
  }

  /** The stripped non-blank lines, in order. */
  function NonBlankLines(lines: seq<string>): (r: seq<string>)
    ensures forall k :: 0 <= k < |r| ==> r[k] != []
  {
    if lines == [] then []
    else
      var line := Strip(lines[0]);
      (if line == [] then [] else [line]) + NonBlankLines(lines[1..])
  }

  /** Every line of `nb` is accepted by `parse`. */
  predicate AllMatch(nb: seq<string>, parse: LineParser) {
    forall k :: 0 <= k < |nb| ==> parse(nb[k]).Some?
  }

  /** The relations of lines that are all accepted, in line order. */
  function RelationsOf(nb: seq<string>, parse: LineParser): (rels: seq<Relation>)
    requires AllMatch(nb, parse)
    ensures |rels| == |nb|
    ensures forall k :: 0 <= k < |nb| ==> Some(rels[k]) == parse(nb[k])
  {
    if nb == [] then []
    else
      assert forall k :: 0 <= k < |nb| - 1 ==> nb[1..][k] == nb[k + 1];
      [parse(nb[0]).value] + RelationsOf(nb[1..], parse)
  }

  lemma AllMatchCons(line: string, nb: seq<string>, parse: LineParser)
    ensures AllMatch([line] + nb, parse) <==> parse(line).Some? && AllMatch(nb, parse)
  {
    var s := [line] + nb;
    if parse(line).Some? && AllMatch(nb, parse) {
      forall k | 0 <= k < |s| ensures parse(s[k]).Some? {
        if k > 0 { assert s[k] == nb[k - 1]; }
      }
    }
    if AllMatch(s, parse) {
      assert parse(s[0]).Some?;
      forall k | 0 <= k < |nb| ensures parse(nb[k]).Some? {
        assert nb[k] == s[k + 1];
      }
    }
  }

  /** A parse succeeds exactly when every non-blank line is accepted. */
  lemma {:induction false} ParseLinesOk(lines: seq<string>, parse: LineParser)
    ensures ParseLines(lines, parse).Ok? <==> AllMatch(NonBlankLines(lines), parse)
  {
    if lines != [] {
      ParseLinesOk(lines[1..], parse);
      var line := Strip(lines[0]);
      if line != [] {
        assert NonBlankLines(lines) == [line] + NonBlankLines(lines[1..]);
        AllMatchCons(line, NonBlankLines(lines[1..]), parse);
      } else {
        assert NonBlankLines(lines) == NonBlankLines(lines[1..]);
      }
    }
  }

  /** A successful parse holds one relation per non-blank line, in line order. */
  lemma {:induction false} ParseLinesValue(lines: seq<string>, parse: LineParser)
    requires ParseLines(lines, parse).Ok?
    ensures AllMatch(NonBlankLines(lines), parse)
    ensures ParseLines(lines, parse).value == RelationsOf(NonBlankLines(lines), parse)
  {
    ParseLinesOk(lines, parse);
    if lines == [] {
      return;
    }
    var line := Strip(lines[0]);
    if line == [] {
      assert NonBlankLines(lines) == NonBlankLines(lines[1..]);
      ParseLinesValue(lines[1..], parse);
    } else {
      assert NonBlankLines(lines) == [line] + NonBlankLines(lines[1..]);
      var rel := parse(line).value;
      assert ParseLines(lines, parse) == Prepend([rel], ParseLines(lines[1..], parse));
      ParseLinesValue(lines[1..], parse);
      AllMatchCons(line, NonBlankLines(lines[1..]), parse);
      assert ([line] + NonBlankLines(lines[1..]))[1..] == NonBlankLines(lines[1..]);
    }
  }

  /** The error a failed parse reports: the `k`-th non-blank line is
      rejected, and every line before it is accepted. */
  predicate FirstMismatch(nb: seq<string>, k: int, e: ParseError, parse: LineParser) {
    0 <= k < |nb| && e == InvalidRelationFormat(nb[k])
    && parse(nb[k]).None? && AllMatch(nb[..k], parse)
  }

  /** A failed parse names the first non-blank line that is rejected. */
  lemma {:induction false} ParseLinesErr(lines: seq<string>, parse: LineParser)
    requires ParseLines(lines, parse).Err?
    ensures exists k :: FirstMismatch(NonBlankLines(lines), k, ParseLines(lines, parse).error, parse)
  {
    var line := Strip(lines[0]);
    var nb' := NonBlankLines(lines[1..]);
    if line == [] {
      assert NonBlankLines(lines) == nb';
      ParseLinesErr(lines[1..], parse);
    } else {
      var nb := [line] + nb';
      assert NonBlankLines(lines) == nb;
      if parse(line).Some? {
        var rel := parse(line).value;
        assert ParseLines(lines, parse) == Prepend([rel], ParseLines(lines[1..], parse));
        ParseLinesErr(lines[1..], parse);
        var k :| FirstMismatch(nb', k, ParseLines(lines[1..], parse).error, parse);
        assert nb[k + 1] == nb'[k];
        assert nb[..k + 1] == [line] + nb'[..k];
        AllMatchCons(line, nb'[..k], parse);
        assert FirstMismatch(nb, k + 1, ParseLines(lines, parse).error, parse);
      } else {
        assert nb[..0] == [];
        assert FirstMismatch(nb, 0, ParseLines(lines, parse).error, parse);
      }
    }
  }

  /** One step of the walk: line `i` decides what the rest of the parse is. */
  lemma ParseLinesStep(lines: seq<string>, i: nat, parse: LineParser)
    requires i < |lines|
    ensures Strip(lines[i]) == [] ==> ParseLines(lines[i..], parse) == ParseLines(lines[i + 1..], parse)
    ensures Strip(lines[i]) != [] && parse(Strip(lines[i])).None? ==>
              ParseLines(lines[i..], parse) == Err(InvalidRelationFormat(Strip(lines[i])))
    ensures Strip(lines[i]) != [] && parse(Strip(lines[i])).Some? ==>
              ParseLines(lines[i..], parse) == Prepend([parse(Strip(lines[i])).value], ParseLines(lines[i + 1..], parse))
  {
    assert lines[i..][1..] == lines[i + 1..];
  }

  lemma PrependPrepend(a: seq<Relation>, b: seq<Relation>, r: Result<seq<Relation>, ParseError>)
    ensures Prepend(a, Prepend(b, r)) == Prepend(a + b, r)
  {
    if r.Ok? {
      assert a + (b + r.value) == (a + b) + r.value;
    }
  }

  lemma PrependNothing(r: Result<seq<Relation>, ParseError>)
    ensures Prepend([], r) == r
  {
    if r.Ok? {
      assert [] + r.value == r.value;
    }
  }

  /** Text made only of whitespace holds no relation. */
  lemma BlankQuery(text: string, parse: LineParser)
    requires AllSpace(text)
    ensures ParseLines(QueryLines(text), parse) == Ok([])
  {
    assert Strip(text) == [];
    assert QueryLines(text) == [[]];
  }

  /** Every relation parse_query returns has an identifier for a name and a
      non-empty list of stripped arguments free of "," and ")". */
  lemma ParsedRelationsWellFormed(text: string)
    requires ParseLines(QueryLines(text), ParseRelation).Ok?
    ensures var rels := ParseLines(QueryLines(text), ParseRelation).value;
            forall k :: 0 <= k < |rels| ==> IsIdentifier(rels[k].name) && WellFormedArgs(rels[k].args)
  {
    var lines := QueryLines(text);
    ParseLinesValue(lines, ParseRelation);
    var nb := NonBlankLines(lines);
    var rels := RelationsOf(nb, ParseRelation);
    forall k | 0 <= k < |rels| ensures IsIdentifier(rels[k].name) && WellFormedArgs(rels[k].args) {
      assert ParseRelation(nb[k]) == Some(rels[k]);
    }
  }

  // ---------------------------------------------------------------------
  // get_all_variables
  // ---------------------------------------------------------------------

  /** set(args) */
  function ArgSet(args: seq<string>): set<string> {
    set a | a in args
  }

  /** The union of the argument lists of `relations`. */
  function Variables(relations: seq<Relation>): set<string> {
    if relations == [] then {}
    else Variables(relations[..|relations| - 1]) + ArgSet(relations[|relations| - 1].args)
  }

  /** A name is a variable exactly when some relation has it as an argument. */
  lemma {:induction false} VariablesMembership(relations: seq<Relation>, v: string)
    ensures v in Variables(relations) <==> exists i :: 0 <= i < |relations| && v in relations[i].args
  {
    if relations != [] {
      var front := relations[..|relations| - 1];
      VariablesMembership(front, v);
      assert forall i :: 0 <= i < |front| ==> front[i] == relations[i];
    }
  }

  /** DatalogParser: holds the compiled pattern it matches lines against. */
  class DatalogParser {
    /** The compiled pattern: a recogniser from a stripped line to its
        relation. */
    const pattern: LineParser

    /** __init__: compiles the relation pattern. */
    constructor()
      ensures pattern == ParseRelation
    {
      pattern := ParseRelation;
    }

    /** parse_query: the relation of every non-blank line in order, or the
        error of the first line the pattern rejects. */
    method ParseQuery(text: string) returns (r: Result<seq<Relation>, ParseError>)
      ensures r == ParseLines(QueryLines(text), pattern)
      ensures AllSpace(text) ==> r == Ok([])
    {
      r := ParseEachLine(QueryLines(text));
      if AllSpace(text) {
        BlankQuery(text, pattern);
      }
    }

    /** The loop of parse_query over the lines of the stripped text: blank
        lines are skipped, the first line the pattern rejects raises. */
    method ParseEachLine(lines: seq<string>) returns (r: Result<seq<Relation>, ParseError>)
      ensures r == ParseLines(lines, pattern)
    {
      var relations: seq<Relation> := [];
      assert lines[0..] == lines;
      PrependNothing(ParseLines(lines, pattern));
      for i := 0 to |lines|
        invariant ParseLines(lines, pattern) == Prepend(relations, ParseLines(lines[i..], pattern))
      {
        ParseLinesStep(lines, i, pattern);
        var line := Strip(lines[i]);
        if line == [] {
          continue;
        }
        match pattern(line) {
          case None =>
            return Err(InvalidRelationFormat(line));
          case Some(rel) =>
            PrependPrepend(relations, [rel], ParseLines(lines[i + 1..], pattern));
            relations := relations + [rel];
        }
      }
      assert lines[|lines|..] == [];
      assert relations + [] == relations;
      r := Ok(relations);
    }

    /** get_all_variables: the set of every argument of every relation. */
    method GetAllVariables(relations: seq<Relation>) returns (variables: set<string>)
      ensures variables == Variables(relations)
      ensures forall v :: v in variables <==> exists i :: 0 <= i < |relations| && v in relations[i].args
    {
      variables := {};
      for i := 0 to |relations|
        invariant variables == Variables(relations[..i])
      {
        assert relations[..i + 1][..i] == relations[..i];
        variables := variables + ArgSet(relations[i].args);
      }
      assert relations[..|relations|] == relations;
      forall v ensures v in variables <==> exists i :: 0 <= i < |relations| && v in relations[i].args {
        VariablesMembership(relations, v);
      }
    }
  }
}
