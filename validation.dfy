/** `checkValidation.py`: reading a DIMACS `.col` graph into adjacency lists, reading a
    colouring written as whitespace-separated integers, and checking that a colouring is
    proper (no edge joins two vertices of one colour) and equitable (colour-class sizes differ
    by at most one). A file is given as its lines; console output is left out. An exception
    that the script does not catch is the outcome `Raised`. */
module Validation {
  import opened PyText

  /** The Python exceptions the checker can raise. */
  datatype PyError = ValueError | IndexError

  /** What a call does: returns a value or raises. */
  datatype Outcome<T> = Returned(value: T) | Raised(error: PyError)

  // =======================================================================================
  // parse_coloring_string

  /** The tokens read from a list of lines: each line stripped and split on whitespace. */
  function LineTokens(lines: seq<string>): seq<string>
  {
    if |lines| == 0 then [] else Split(Strip(lines[0])) + LineTokens(lines[1..])
  }

  /** The tokens `parse_coloring_string` reads from its argument, line by line. */
  function ColoringTokens(text: string): seq<string>
  {
    LineTokens(SplitOn(Strip(text), '\n'))
  }

  /** `[int(x) for x in tokens]`, or `None` when some `int(x)` raises `ValueError`. */
  function ParseTokens(ts: seq<string>): (r: Option<seq<int>>)
    ensures r.Some? ==> |r.value| == |ts|
  {
    if |ts| == 0 then Some([])
    else
      match ParseInt(ts[0])
      case None => None
      case Some(x) =>
        match ParseTokens(ts[1..])
        case None => None
        case Some(xs) => Some([x] + xs)
  }

  /** The list is produced exactly when every token is an integer, and then holds their values
      in order. */
  lemma {:induction false} ParseTokensMeaning(ts: seq<string>)
    ensures ParseTokens(ts).Some? <==> forall i :: 0 <= i < |ts| ==> ParseInt(ts[i]).Some?
    ensures ParseTokens(ts).Some? ==>
      |ParseTokens(ts).value| == |ts| && forall i :: 0 <= i < |ts| ==> ParseInt(ts[i]) == Some(ParseTokens(ts).value[i])
  {
    if |ts| > 0 {
      var rest := ts[1..];
      ParseTokensMeaning(rest);
      assert forall i :: 0 < i < |ts| ==> ts[i] == rest[i - 1];
      if ParseTokens(ts).Some? {
        var xs := ParseTokens(ts).value;
        assert ParseTokens(rest).Some? && xs == [ParseInt(ts[0]).value] + ParseTokens(rest).value;
      }
    }
  }

  lemma {:induction false} LineTokensAppend(a: seq<string>, b: seq<string>)
    ensures LineTokens(a + b) == LineTokens(a) + LineTokens(b)
  {
    if |a| > 0 {
      assert (a + b)[1..] == a[1..] + b;
      LineTokensAppend(a[1..], b);
    } else {
      assert a + b == b;
    }
  }

  /** Parsing two token lists one after the other. */
  lemma {:induction false} ParseTokensAppend(a: seq<string>, b: seq<string>)
    ensures ParseTokens(a + b) ==
      if ParseTokens(a).Some? && ParseTokens(b).Some? then Some(ParseTokens(a).value + ParseTokens(b).value) else None
  {
    if |a| == 0 {
      assert a + b == b;
      assert ParseTokens(b).Some? ==> [] + ParseTokens(b).value == ParseTokens(b).value;
    } else {
      var ab := a + b;
      assert ab[0] == a[0];
      assert ab[1..] == a[1..] + b;
      ParseTokensAppend(a[1..], b);
      if ParseTokens(a).Some? && ParseTokens(b).Some? {
        assert ParseTokens(a[1..]).Some?;
        ConcatAssoc([ParseTokens(a).value[0]], ParseTokens(a[1..]).value, ParseTokens(b).value);
      }
    }
  }

  lemma PrefixStep<T>(s: seq<T>, k: nat)
    requires k < |s|
    ensures s[..k + 1] == s[..k] + [s[k]]
  {
  }

  /** The tokens of one more line. */
  lemma LineTokensStep(lines: seq<string>, k: nat)
    requires k < |lines|
    ensures LineTokens(lines[..k + 1]) == LineTokens(lines[..k]) + Split(Strip(lines[k]))
  {
    PrefixStep(lines, k);
    LineTokensAppend(lines[..k], [lines[k]]);
    assert [lines[k]][1..] == [];
    assert LineTokens([lines[k]]) == Split(Strip(lines[k])) + [];
  }

  /** Parsing line by line gives the integers of all the lines' tokens, or fails when one of
      them is not an integer. */
  lemma {:induction false} ParseLinesMeaning(lines: seq<string>)
    ensures ParseLinesSpec(lines) == ParseTokens(LineTokens(lines))
  {
    if |lines| > 0 {
      var n := |lines| - 1;
      ParseLinesMeaning(lines[..n]);
      LineTokensStep(lines, n);
      assert lines[..n + 1] == lines;
      ParseTokensAppend(LineTokens(lines[..n]), Split(Strip(lines[n])));
    }
  }

  /** `parse_coloring_string(text)`: the integers of all lines, in line-then-token order, or
      `None` when a token is not an integer. */
  method ParseColoringString(text: string) returns (r: Option<seq<int>>)
    ensures r == ParseTokens(ColoringTokens(text))
  {
    var lines := SplitOn(Strip(text), '\n');
    r := ParseLines(lines);
    ParseLinesMeaning(lines);
  }

  /** The body of the loop over one stripped line: an empty line adds nothing, otherwise
      `[int(x) for x in line.split()]`. */
  method ParseLine(line: string) returns (parsed: Option<seq<int>>)
    ensures parsed == ParseTokens(Split(line))
  {
    if |line| > 0 {
      parsed := ParseTokens(Split(line));
    } else {
      parsed := Some([]);
    }
  }

  /** The loop of `parse_coloring_string`, one line at a time. */
  function ParseLinesSpec(lines: seq<string>): Option<seq<int>>
  {
    if |lines| == 0 then Some([])
    else
      match ParseLinesSpec(lines[..|lines| - 1])
      case None => None
      case Some(ns) =>
        match ParseTokens(Split(Strip(lines[|lines| - 1])))
        case None => None
        case Some(xs) => Some(ns + xs)
  }

  lemma {:induction false} ParseLinesStops(lines: seq<string>, k: nat)
    requires k <= |lines| && ParseLinesSpec(lines[..k]) == None
    ensures ParseLinesSpec(lines) == None
    decreases |lines| - k
  {
    if k < |lines| {
      assert lines[..k + 1][..k] == lines[..k];
      ParseLinesStops(lines, k + 1);
    } else {
      assert lines[..k] == lines;
    }
  }

  /** The loop of `parse_coloring_string` over the lines of the stripped text. */
  method ParseLines(lines: seq<string>) returns (r: Option<seq<int>>)
    ensures r == ParseLinesSpec(lines)
  {
    var numbers: seq<int> := [];
    var k := 0;
    while k < |lines|
      invariant 0 <= k <= |lines|
      invariant ParseLinesSpec(lines[..k]) == Some(numbers)
    {
      assert lines[..k + 1][..k] == lines[..k];
      var parsed := ParseLine(Strip(lines[k]));
      if parsed.None? {
        ParseLinesStops(lines, k + 1);
        return None;
      }
      numbers := numbers + parsed.value;
      k := k + 1;
    }
    assert lines[..k] == lines;
    r := Some(numbers);
  }

  /** Joining two or more lines: the first, a newline, and the rest joined. */
  lemma JoinLines(lines: seq<string>)
    requires |lines| >= 2
    ensures Join(lines, "\n") == lines[0] + ("\n" + Join(lines[1..], "\n"))
  {
    ConcatAssoc(lines[0], "\n", Join(lines[1..], "\n"));
  }

  /** Splitting into lines and then into words gives the words of the whole text. */
  lemma {:induction false} LinesWords(lines: seq<string>)
    requires |lines| >= 1
    ensures LineTokens(lines) == Split(Join(lines, "\n"))
  {
    SplitStrip(lines[0]);
    if |lines| == 1 {
      assert lines[1..] == [];
      assert LineTokens(lines) == Split(Strip(lines[0])) + [];
    } else {
      var rest := Join(lines[1..], "\n");
      var t := "\n" + rest;
      LinesWords(lines[1..]);
      JoinLines(lines);
      SplitAround(lines[0], t);
      assert t[1..] == rest;
    }
  }

  /** The tokens `parse_coloring_string` reads are exactly `text.split()`: splitting into
      lines first and stripping changes nothing, since a newline is whitespace. */
  lemma ColoringTokensAreWords(text: string)
    ensures ColoringTokens(text) == Split(text)
  {
    var lines := SplitOn(Strip(text), '\n');
    LinesWords(lines);
    JoinSplitOn(Strip(text), '\n');
    SplitStrip(text);
  }

  /** `[str(c) for c in colors]`. */
  function Show(colors: seq<int>): (r: seq<string>)
    ensures |r| == |colors|
    ensures forall i :: 0 <= i < |r| ==> r[i] == IntToString(colors[i])
  {
    if |colors| == 0 then [] else [IntToString(colors[0])] + Show(colors[1..])
  }

  /** A colouring written as `' '.join(str(c) for c in colors)`. */
  function ColoringText(colors: seq<int>): string
  {
    Join(Show(colors), " ")
  }

  /** Parsing the written colours gives the colours back. */
  lemma {:induction false} ParseShow(colors: seq<int>)
    ensures ParseTokens(Show(colors)) == Some(colors)
  {
    if |colors| > 0 {
      var ws := Show(colors);
      assert ws[1..] == Show(colors[1..]);
      ParseIntToString(colors[0]);
      ParseShow(colors[1..]);
      assert [colors[0]] + colors[1..] == colors;
    }
  }

  /** Writing a colouring out and parsing it back gives the same colouring. */
  lemma ParseColoringRoundTrip(colors: seq<int>)
    ensures ParseTokens(ColoringTokens(ColoringText(colors))) == Some(colors)
  {
    ColoringTokensAreWords(ColoringText(colors));
    SplitJoin(Show(colors));
    ParseShow(colors);
  }

  // =======================================================================================
  // parse_graph_file

  /** The variables of the reading loop: the vertex and edge counts of the last `p edge`
      line (0 before one is seen) and the 0-based endpoints of every `e` line, in order. */
  datatype ReadState = ReadState(numVertices: int, numEdges: int, edges: seq<(int, int)>)

  const START_STATE: ReadState := ReadState(0, 0, [])

  /** One pass of the reading loop over the line `raw`. */
  function ReadLine(st: ReadState, raw: string): Outcome<ReadState>
  {
    var line := Strip(raw);
    if StartsWith(line, 'c') then Returned(st)
    else if StartsWith(line, 'p') then ReadProblem(st, Split(line))
    else if StartsWith(line, 'e') then ReadEdgeParts(st, Split(line))
    else Returned(st)
  }

  /** A `p` line split into words: `p edge <n> <m>` sets both counts; any other `p` line is
      skipped. */
  function ReadProblem(st: ReadState, parts: seq<string>): Outcome<ReadState>
  {
    if |parts| >= 4 && parts[1] == "edge" then
      match ParseInt(parts[2])
      case None => Raised(ValueError)
      case Some(n) =>
        match ParseInt(parts[3])
        case None => Raised(ValueError)
        case Some(m) => Returned(st.(numVertices := n, numEdges := m))
    else Returned(st)
  }

  /** An `e` line split into words: `e <u> <v>` appends the edge made 0-based; a shorter `e`
      line is skipped. */
  function ReadEdgeParts(st: ReadState, parts: seq<string>): Outcome<ReadState>
  {
    if |parts| >= 3 then
      match ParseInt(parts[1])
      case None => Raised(ValueError)
      case Some(u) =>
        match ParseInt(parts[2])
        case None => Raised(ValueError)
        case Some(v) => Returned(st.(edges := st.edges + [(u - 1, v - 1)]))
    else Returned(st)
  }

  /** The reading loop over `lines`, started from the state `st`; the first `ValueError`
      ends it. */
  function ReadFrom(st: ReadState, lines: seq<string>): Outcome<ReadState>
  {
    if |lines| == 0 then Returned(st)
    else
      match ReadFrom(st, lines[..|lines| - 1])
      case Raised(e) => Raised(e)
      case Returned(s) => ReadLine(s, lines[|lines| - 1])
  }

  /** The reading loop over all lines of the file. */
  function ReadLines(lines: seq<string>): Outcome<ReadState>
  {
    ReadFrom(START_STATE, lines)
  }

  /** Once a line raises, so does the whole loop. */
  lemma {:induction false} ReadLinesRaised(lines: seq<string>, k: nat, e: PyError)
    requires k <= |lines| && ReadLines(lines[..k]) == Raised(e)
    ensures ReadLines(lines) == Raised(e)
    decreases |lines| - k
  {
    if k < |lines| {
      assert lines[..k + 1][..k] == lines[..k];
      ReadLinesRaised(lines, k + 1, e);
    } else {
      assert lines[..k] == lines;
    }
  }

  /** The body of the `for line in file` loop on the loop variables `num_vertices`,
      `num_edges` and `edges`. */
  method ReadOneLine(numVertices: int, numEdges: int, edges: seq<(int, int)>, raw: string)
    returns (r: Outcome<ReadState>)
    ensures r == ReadLine(ReadState(numVertices, numEdges, edges), raw)
  {
    var line := Strip(raw);
    if StartsWith(line, 'c') {
      r := Returned(ReadState(numVertices, numEdges, edges));
    } else if StartsWith(line, 'p') {
      r := ReadProblemLine(numVertices, numEdges, edges, Split(line));
    } else if StartsWith(line, 'e') {
      r := ReadEdgeLine(numVertices, numEdges, edges, Split(line));
    } else {
      r := Returned(ReadState(numVertices, numEdges, edges));
    }
  }

  /** The `p` branch of the loop body. */
  method ReadProblemLine(numVertices: int, numEdges: int, edges: seq<(int, int)>, parts: seq<string>)
    returns (r: Outcome<ReadState>)
    ensures r == ReadProblem(ReadState(numVertices, numEdges, edges), parts)
  {
    var nv, ne := numVertices, numEdges;
    if |parts| >= 4 && parts[1] == "edge" {
      var n := ParseInt(parts[2]);
      if n.None? {
        return Raised(ValueError);
      }
      nv := n.value;
      var m := ParseInt(parts[3]);
      if m.None? {
        return Raised(ValueError);
      }
      ne := m.value;
    }
    r := Returned(ReadState(nv, ne, edges));
  }

  /** The `e` branch of the loop body. */
  method ReadEdgeLine(numVertices: int, numEdges: int, edges: seq<(int, int)>, parts: seq<string>)
    returns (r: Outcome<ReadState>)
    ensures r == ReadEdgeParts(ReadState(numVertices, numEdges, edges), parts)
  {
    var es := edges;
    if |parts| >= 3 {
      var u := ParseInt(parts[1]);
      if u.None? {
        return Raised(ValueError);
      }
      var v := ParseInt(parts[2]);
      if v.None? {
        return Raised(ValueError);
      }
      es := es + [(u.value - 1, v.value - 1)];
    }
    r := Returned(ReadState(numVertices, numEdges, es));
  }

  /** The `for line in file` loop of `parse_graph_file`; a `ValueError` from `int` ends it. */
  method ReadGraphLines(lines: seq<string>) returns (r: Outcome<ReadState>)
    ensures r == ReadLines(lines)
  {
    var numVertices, numEdges := 0, 0;
    var edges: seq<(int, int)> := [];
    for k := 0 to |lines|
      invariant ReadLines(lines[..k]) == Returned(ReadState(numVertices, numEdges, edges))
    {
      assert lines[..k + 1][..k] == lines[..k];
      var next := ReadOneLine(numVertices, numEdges, edges, lines[k]);
      if next.Raised? {
        ReadLinesRaised(lines, k + 1, next.error);
        return next;
      }
      numVertices, numEdges, edges := next.value.numVertices, next.value.numEdges, next.value.edges;
    }
    assert lines[..|lines|] == lines;
    r := Returned(ReadState(numVertices, numEdges, edges));
  }

  /** Edge e joins u and v and both its ends are vertices of a graph with n vertices. */
  predicate Joins(e: (int, int), n: int, u: int, v: int)
  {
    0 <= e.0 < n && 0 <= e.1 < n && (e == (u, v) || e == (v, u))
  }

  /** The adjacency lists after the edge loop of `parse_graph_file`: `n` empty lists
      (none if n is negative), then for each edge with both ends in range, each end
      appended to the other's list. */
  function Adjacency(n: int, edges: seq<(int, int)>): (g: seq<seq<int>>)
    ensures |g| == if n < 0 then 0 else n
    ensures forall u, i :: 0 <= u < |g| && 0 <= i < |g[u]| ==> 0 <= g[u][i] < |g|
  {
    if |edges| == 0 then seq(if n < 0 then 0 else n, _ => [])
    else
      var g := Adjacency(n, edges[..|edges| - 1]);
      var (u, v) := edges[|edges| - 1];
      if 0 <= u < n && 0 <= v < n then
        var g1 := g[u := g[u] + [v]];
        g1[v := g1[v] + [u]]
      else g
  }

  /** v is in u's list exactly when some edge with both ends in range joins them. */
  lemma {:induction false} AdjacencyMembers(n: int, edges: seq<(int, int)>)
    ensures forall u, v :: 0 <= u < |Adjacency(n, edges)| ==>
      (v in Adjacency(n, edges)[u] <==> exists i :: 0 <= i < |edges| && Joins(edges[i], n, u, v))
  {
    if |edges| > 0 {
      var prev := edges[..|edges| - 1];
      AdjacencyMembers(n, prev);
      var g := Adjacency(n, edges);
      var e := edges[|edges| - 1];
      forall u, v | 0 <= u < |g|
        ensures v in g[u] <==> exists i :: 0 <= i < |edges| && Joins(edges[i], n, u, v)
      {
        if v in Adjacency(n, prev)[u] {
          var i :| 0 <= i < |prev| && Joins(prev[i], n, u, v);
          assert edges[i] == prev[i];
        }
        if exists i :: 0 <= i < |edges| && Joins(edges[i], n, u, v) {
          var i :| 0 <= i < |edges| && Joins(edges[i], n, u, v);
          if i < |prev| {
            assert prev[i] == edges[i];
          }
        }
      }
    }
  }

  /** The lists are symmetric: v is in u's list exactly when u is in v's. */
  lemma AdjacencySymmetric(n: int, edges: seq<(int, int)>)
    ensures forall u, v :: 0 <= u < |Adjacency(n, edges)| && 0 <= v < |Adjacency(n, edges)| ==>
      (v in Adjacency(n, edges)[u] <==> u in Adjacency(n, edges)[v])
  {
    AdjacencyMembers(n, edges);
    forall u, v | 0 <= u < |Adjacency(n, edges)| && 0 <= v < |Adjacency(n, edges)|
      ensures v in Adjacency(n, edges)[u] <==> u in Adjacency(n, edges)[v]
    {
      if exists i :: 0 <= i < |edges| && Joins(edges[i], n, u, v) {
        var i :| 0 <= i < |edges| && Joins(edges[i], n, u, v);
        assert Joins(edges[i], n, v, u);
      }
      if exists i :: 0 <= i < |edges| && Joins(edges[i], n, v, u) {
        var i :| 0 <= i < |edges| && Joins(edges[i], n, v, u);
        assert Joins(edges[i], n, u, v);
      }
    }
  }

  /** The `graph = [[] ...]` construction and the edge loop of `parse_graph_file`. */
  method BuildAdjacency(n: int, edges: seq<(int, int)>) returns (graph: seq<seq<int>>)
    ensures graph == Adjacency(n, edges)
  {
    graph := seq(if n < 0 then 0 else n, _ => []);
    for k := 0 to |edges|
      invariant graph == Adjacency(n, edges[..k])
    {
      assert edges[..k + 1][..k] == edges[..k];
      var (u, v) := edges[k];
      if 0 <= u < n && 0 <= v < n {
        graph := graph[u := graph[u] + [v]];
        graph := graph[v := graph[v] + [u]];
      }
    }
    assert edges[..|edges|] == edges;
  }

  /** What `parse_graph_file` returns: the adjacency lists, the vertex count, and the
      number of `e` lines read, in range or not. */
  datatype GraphFile = GraphFile(graph: seq<seq<int>>, numVertices: int, edgeCount: int)

  function ParseGraph(lines: seq<string>): Outcome<GraphFile>
  {
    match ReadLines(lines)
    case Raised(e) => Raised(e)
    case Returned(st) => Returned(GraphFile(Adjacency(st.numVertices, st.edges), st.numVertices, |st.edges|))
  }

  /** `parse_graph_file` on a file with the given lines. */
  method ParseGraphFile(lines: seq<string>) returns (r: Outcome<GraphFile>)
    ensures r == ParseGraph(lines)
  {
    var st := ReadGraphLines(lines);
    if st.Raised? {
      return Raised(st.error);
    }
    var graph := BuildAdjacency(st.value.numVertices, st.value.edges);
    r := Returned(GraphFile(graph, st.value.numVertices, |st.value.edges|));
  }

  // ---------------------------------------------------------------------------------------
  // The DIMACS text of a graph, and reading it back

  /** `p edge <n> <m>`. */
  function HeaderLine(n: int, m: int): string
  {
    Join(["p", "edge", IntToString(n), IntToString(m)], " ")
  }

  /** `e <u> <v>`. */
  function EdgeLine(u: int, v: int): string
  {
    Join(["e", IntToString(u), IntToString(v)], " ")
  }

  /** One `e` line per edge, with the 1-based endpoints as given. */
  function EdgeLines(es: seq<(int, int)>): (r: seq<string>)
    ensures |r| == |es|
  {
    if |es| == 0 then [] else EdgeLines(es[..|es| - 1]) + [EdgeLine(es[|es| - 1].0, es[|es| - 1].1)]
  }

  function Dimacs(n: int, m: int, es: seq<(int, int)>): seq<string>
  {
    [HeaderLine(n, m)] + EdgeLines(es)
  }

  /** The endpoints made 0-based. */
  function ZeroBased(es: seq<(int, int)>): (r: seq<(int, int)>)
    ensures |r| == |es|
  {
    if |es| == 0 then [] else ZeroBased(es[..|es| - 1]) + [(es[|es| - 1].0 - 1, es[|es| - 1].1 - 1)]
  }

  /** Each endpoint is one less, in the same order. */
  lemma {:induction false} ZeroBasedEntries(es: seq<(int, int)>)
    ensures |ZeroBased(es)| == |es|
    ensures forall i :: 0 <= i < |es| ==> ZeroBased(es)[i] == (es[i].0 - 1, es[i].1 - 1)
  {
    if |es| > 0 {
      var prev := es[..|es| - 1];
      ZeroBasedEntries(prev);
      assert forall i :: 0 <= i < |prev| ==> es[i] == prev[i];
    }
  }

  lemma NoSpaceWord(w: string)
    requires w == "p" || w == "e" || w == "edge"
    ensures |w| > 0 && NoSpace(w)
  {
  }

  /** The words of the header line. */
  lemma HeaderWords(n: int, m: int)
    ensures var line := HeaderLine(n, m);
      Strip(line) == line && StartsWith(line, 'p') && !StartsWith(line, 'c') &&
      Split(line) == ["p", "edge", IntToString(n), IntToString(m)]
  {
    NoSpaceWord("p");
    NoSpaceWord("edge");
    JoinedWords(["p", "edge", IntToString(n), IntToString(m)]);
  }

  /** The words of an edge line. */
  lemma EdgeWords(u: int, v: int)
    ensures var line := EdgeLine(u, v);
      Strip(line) == line && StartsWith(line, 'e') && !StartsWith(line, 'c') && !StartsWith(line, 'p') &&
      Split(line) == ["e", IntToString(u), IntToString(v)]
  {
    var ws := ["e", IntToString(u), IntToString(v)];
    NoSpaceWord("e");
    assert forall i :: 0 <= i < |ws| ==> |ws[i]| > 0 && NoSpace(ws[i]);
    JoinedWords(ws);
    assert Join(ws, " ")[0] == 'e';
  }

  /** The header line sets the counts. */
  lemma ReadHeader(st: ReadState, n: int, m: int)
    ensures ReadLine(st, HeaderLine(n, m)) == Returned(st.(numVertices := n, numEdges := m))
  {
    HeaderWords(n, m);
    HeaderPartsRead(st, n, m);
  }

  lemma HeaderPartsRead(st: ReadState, n: int, m: int)
    ensures ReadProblem(st, ["p", "edge", IntToString(n), IntToString(m)]) == Returned(st.(numVertices := n, numEdges := m))
  {
    ParseIntToString(n);
    ParseIntToString(m);
    assert ["p", "edge", IntToString(n), IntToString(m)][1] == "edge";
  }

  /** An edge line appends its edge, made 0-based. */
  lemma ReadEdge(st: ReadState, u: int, v: int)
    ensures ReadLine(st, EdgeLine(u, v)) == Returned(ReadState(st.numVertices, st.numEdges, st.edges + [(u - 1, v - 1)]))
  {
    EdgeWords(u, v);
    EdgePartsRead(st, u, v);
  }

  lemma EdgePartsRead(st: ReadState, u: int, v: int)
    ensures ReadEdgeParts(st, ["e", IntToString(u), IntToString(v)]) ==
      Returned(ReadState(st.numVertices, st.numEdges, st.edges + [(u - 1, v - 1)]))
  {
    ParseIntToString(u);
    ParseIntToString(v);
  }

  /** Reading the DIMACS text of n, m and the 1-based edges es gives back n, m and the edges
      made 0-based. */
  lemma ReadDimacs(n: int, m: int, es: seq<(int, int)>)
    ensures ReadLines(Dimacs(n, m, es)) == Returned(ReadState(n, m, ZeroBased(es)))
  {
    var header := ReadState(n, m, []);
    assert [HeaderLine(n, m)][..0] == [];
    ReadHeader(START_STATE, n, m);
    ReadFromConcat(START_STATE, [HeaderLine(n, m)], EdgeLines(es), header);
    EdgeLinesAppend(es);
    ZeroBasedEntries(es);
    ReadFromAppending(header, EdgeLines(es), ZeroBased(es));
    assert [] + ZeroBased(es) == ZeroBased(es);
  }

  /** Reading `a + b` from `st` is reading `b` from wherever reading `a` left off, as long as
      `a` raised nothing. */
  lemma {:induction false} ReadFromConcat(st: ReadState, a: seq<string>, b: seq<string>, mid: ReadState)
    requires ReadFrom(st, a) == Returned(mid)
    ensures ReadFrom(st, a + b) == ReadFrom(mid, b)
  {
    if |b| == 0 {
      assert a + b == a;
    } else {
      var prev := b[..|b| - 1];
      ReadFromConcat(st, a, prev, mid);
      assert (a + b)[..|a + b| - 1] == a + prev;
      assert (a + b)[|a + b| - 1] == b[|b| - 1];
    }
  }

  /** Lines each of which appends one edge, and changes nothing else, append those edges in
      order. */
  lemma {:induction false} ReadFromAppending(st: ReadState, lines: seq<string>, es: seq<(int, int)>)
    requires |lines| == |es|
    requires forall i, s {:trigger ReadLine(s, lines[i])} :: 0 <= i < |lines| ==>
      ReadLine(s, lines[i]) == Returned(ReadState(s.numVertices, s.numEdges, s.edges + [es[i]]))
    ensures ReadFrom(st, lines) == Returned(ReadState(st.numVertices, st.numEdges, st.edges + es))
  {
    if |lines| == 0 {
      assert st.edges + es == st.edges;
    } else {
      var n := |lines| - 1;
      ReadFromAppending(st, lines[..n], es[..n]);
      var mid := ReadState(st.numVertices, st.numEdges, st.edges + es[..n]);
      assert ReadLine(mid, lines[n]) == Returned(ReadState(st.numVertices, st.numEdges, mid.edges + [es[n]]));
      ConcatAssoc(st.edges, es[..n], [es[n]]);
      SnocLast(es);
    }
  }

  /** The i-th edge line appends the i-th edge, made 0-based. */
  lemma EdgeLinesAppend(es: seq<(int, int)>)
    ensures forall i, s {:trigger ReadLine(s, EdgeLines(es)[i])} :: 0 <= i < |es| ==>
      ReadLine(s, EdgeLines(es)[i]) == Returned(ReadState(s.numVertices, s.numEdges, s.edges + [ZeroBased(es)[i]]))
  {
    forall i, s | 0 <= i < |es|
      ensures ReadLine(s, EdgeLines(es)[i]) == Returned(ReadState(s.numVertices, s.numEdges, s.edges + [ZeroBased(es)[i]]))
    {
      EdgeLineAt(es, i);
      ReadEdgeAs(s, EdgeLines(es)[i], es[i].0, es[i].1, ZeroBased(es)[i]);
    }
  }

  lemma EdgeLineAt(es: seq<(int, int)>, i: nat)
    requires i < |es|
    ensures EdgeLines(es)[i] == EdgeLine(es[i].0, es[i].1)
    ensures ZeroBased(es)[i] == (es[i].0 - 1, es[i].1 - 1)
  {
    EdgeLinesEntries(es);
    ZeroBasedEntries(es);
  }

  lemma ReadEdgeAs(s: ReadState, line: string, u: int, v: int, e: (int, int))
    requires line == EdgeLine(u, v) && e == (u - 1, v - 1)
    ensures ReadLine(s, line) == Returned(ReadState(s.numVertices, s.numEdges, s.edges + [e]))
  {
    ReadEdge(s, u, v);
  }

  lemma SnocLast<T>(s: seq<T>)
    requires |s| > 0
    ensures s[..|s| - 1] + [s[|s| - 1]] == s
  {
  }

  lemma {:induction false} EdgeLinesEntries(es: seq<(int, int)>)
    ensures forall i :: 0 <= i < |es| ==> EdgeLines(es)[i] == EdgeLine(es[i].0, es[i].1)
  {
    if |es| > 0 {
      var prev := es[..|es| - 1];
      EdgeLinesEntries(prev);
      assert forall i :: 0 <= i < |prev| ==> es[i] == prev[i];
    }
  }

  /** `parse_graph_file` on the DIMACS text of a graph: the adjacency lists of the in-range
      edges, the vertex count, and an edge count that includes the edges dropped for being
      out of range. */
  lemma ParseDimacs(n: int, m: int, es: seq<(int, int)>)
    ensures ParseGraph(Dimacs(n, m, es)) == Returned(GraphFile(Adjacency(n, ZeroBased(es)), n, |es|))
  {
    ReadDimacs(n, m, es);
  }

  // =======================================================================================
  // verify_coloring_validity

  /** A reported conflict `(u + 1, v + 1, coloring[u])`: 1-based endpoints and the colour. */
  datatype Conflict = Conflict(u: int, v: int, color: int)

  datatype Message =
    | GraphNotLoaded
    | LengthMismatch(expected: int, got: int)
    | InvalidEdges(count: nat, shown: seq<Conflict>, truncated: bool)
    | AllAdjacentDiffer

  /** The pair `(is_valid, message)`. */
  datatype Validity = Validity(valid: bool, message: Message)

  /** The entry at position i of u's list is a later vertex with the same colour. */
  predicate SameColour(graph: seq<seq<int>>, coloring: seq<int>, u: int, i: int)
    requires 0 <= u < |graph| && 0 <= i < |graph[u]| && |coloring| == |graph|
  {
    u < graph[u][i] < |coloring| && coloring[u] == coloring[graph[u][i]]
  }

  /** The conflicts found in u's list `row`, in list order. */
  function RowConflicts(u: int, row: seq<int>, coloring: seq<int>): (r: seq<Conflict>)
    requires 0 <= u < |coloring|
  {
    if |row| == 0 then []
    else
      var cs := RowConflicts(u, row[..|row| - 1], coloring);
      var v := row[|row| - 1];
      if u < v < |coloring| && coloring[u] == coloring[v] then cs + [Conflict(u + 1, v + 1, coloring[u])] else cs
  }

  /** The conflicts found in the lists of vertices 0 .. k-1, in scan order. */
  function Conflicts(graph: seq<seq<int>>, coloring: seq<int>, k: nat): seq<Conflict>
    requires k <= |graph| == |coloring|
  {
    if k == 0 then [] else Conflicts(graph, coloring, k - 1) + RowConflicts(k - 1, graph[k - 1], coloring)
  }

  /** A list entry past u holds a vertex that `coloring[v]` cannot index. */
  ghost predicate RowFaulty(u: int, row: seq<int>, n: int)
  {
    exists i :: 0 <= i < |row| && u < row[i] && row[i] >= n
  }

  ghost predicate Faulty(graph: seq<seq<int>>, n: int)
  {
    exists u :: 0 <= u < |graph| && RowFaulty(u, graph[u], n)
  }

  /** The result for a list of conflicts: valid when there are none, otherwise the count, the
      first five, and whether any were left out. */
  function Report(cs: seq<Conflict>): (r: Validity)
    ensures r.valid <==> |cs| == 0
    ensures r.valid ==> r.message == AllAdjacentDiffer
    ensures !r.valid ==>
              r.message.InvalidEdges? && r.message.count == |cs| &&
              r.message.shown <= cs && |r.message.shown| <= 5 &&
              (r.message.truncated <==> |r.message.shown| < |cs|)
  {
    if |cs| > 0 then Validity(false, InvalidEdges(|cs|, cs[..if |cs| < 5 then |cs| else 5], |cs| > 5))
    else Validity(true, AllAdjacentDiffer)
  }

  /** The inner loop of `verify_coloring_validity` over u's list. */
  method ScanRow(u: int, row: seq<int>, coloring: seq<int>) returns (r: Outcome<seq<Conflict>>)
    requires 0 <= u < |coloring|
    ensures r.Raised? <==> RowFaulty(u, row, |coloring|)
    ensures r.Raised? ==> r.error == IndexError
    ensures r.Returned? ==> r.value == RowConflicts(u, row, coloring)
  {
    var found: seq<Conflict> := [];
    for i := 0 to |row|
      invariant found == RowConflicts(u, row[..i], coloring)
      invariant forall j :: 0 <= j < i && u < row[j] ==> row[j] < |coloring|
    {
      assert row[..i + 1][..i] == row[..i];
      var v := row[i];
      if u < v {
        if v >= |coloring| {
          // `coloring[v]` raises
          assert row[i] == v;
          return Raised(IndexError);
        }
        if coloring[u] == coloring[v] {
          found := found + [Conflict(u + 1, v + 1, coloring[u])];
        }
      }
    }
    assert row[..|row|] == row;
    r := Returned(found);
  }

  /** `verify_coloring_validity(graph, coloring)`, with `None` for a graph that was not read. */
  method VerifyColoringValidity(graph: Option<seq<seq<int>>>, coloring: seq<int>) returns (r: Outcome<Validity>)
    ensures graph == None || graph == Some([]) ==> r == Returned(Validity(false, GraphNotLoaded))
    ensures graph.Some? && |graph.value| > 0 && |coloring| != |graph.value| ==>
      r == Returned(Validity(false, LengthMismatch(|graph.value|, |coloring|)))
    ensures graph.Some? && |graph.value| > 0 && |coloring| == |graph.value| ==>
      (r.Raised? <==> Faulty(graph.value, |coloring|)) &&
      (r.Raised? ==> r.error == IndexError) &&
      (r.Returned? ==> r.value == Report(Conflicts(graph.value, coloring, |graph.value|)))
  {
    if graph.None? || |graph.value| == 0 {
      return Returned(Validity(false, GraphNotLoaded));
    }
    var g := graph.value;
    var numVertices := |g|;
    if |coloring| != numVertices {
      return Returned(Validity(false, LengthMismatch(numVertices, |coloring|)));
    }
    var invalid: seq<Conflict> := [];
    for u := 0 to numVertices
      invariant invalid == Conflicts(g, coloring, u)
      invariant forall x :: 0 <= x < u ==> !RowFaulty(x, g[x], |coloring|)
    {
      var found := ScanRow(u, g[u], coloring);
      if found.Raised? {
        return Raised(IndexError);
      }
      invalid := invalid + found.value;
    }
    r := Returned(Report(invalid));
  }

  /** The reported conflicts are exactly the list entries v of each u with u < v and the two
      colours equal, each as the 1-based triple (u + 1, v + 1, colour). */
  lemma {:induction false} RowConflictsMembers(u: int, row: seq<int>, coloring: seq<int>)
    requires 0 <= u < |coloring|
    ensures forall c :: c in RowConflicts(u, row, coloring) <==>
      exists i :: 0 <= i < |row| && u < row[i] < |coloring| && coloring[u] == coloring[row[i]] &&
        c == Conflict(u + 1, row[i] + 1, coloring[u])
  {
    if |row| > 0 {
      var prev := row[..|row| - 1];
      RowConflictsMembers(u, prev, coloring);
      forall c
        ensures c in RowConflicts(u, row, coloring) <==>
          exists i :: 0 <= i < |row| && u < row[i] < |coloring| && coloring[u] == coloring[row[i]] &&
            c == Conflict(u + 1, row[i] + 1, coloring[u])
      {
        if c in RowConflicts(u, prev, coloring) {
          var i :| 0 <= i < |prev| && u < prev[i] < |coloring| && coloring[u] == coloring[prev[i]] &&
            c == Conflict(u + 1, prev[i] + 1, coloring[u]);
          assert row[i] == prev[i];
        }
        if exists i :: 0 <= i < |row| && u < row[i] < |coloring| && coloring[u] == coloring[row[i]] &&
             c == Conflict(u + 1, row[i] + 1, coloring[u]) {
          var i :| 0 <= i < |row| && u < row[i] < |coloring| && coloring[u] == coloring[row[i]] &&
            c == Conflict(u + 1, row[i] + 1, coloring[u]);
          if i < |prev| {
            assert prev[i] == row[i];
          }
        }
      }
    }
  }

  /** A proper colouring: no list entry v of u with u < v has u's colour. */
  predicate Proper(graph: seq<seq<int>>, coloring: seq<int>)
    requires |graph| == |coloring|
  {
    forall u, i :: 0 <= u < |graph| && 0 <= i < |graph[u]| ==> !SameColour(graph, coloring, u, i)
  }

  /** There are conflicts in the first k lists exactly when one of them has a same-coloured
      later neighbour. */
  lemma {:induction false} ConflictsEmpty(graph: seq<seq<int>>, coloring: seq<int>, k: nat)
    requires k <= |graph| == |coloring|
    ensures |Conflicts(graph, coloring, k)| == 0 <==>
      forall u, i :: 0 <= u < k && 0 <= i < |graph[u]| ==> !SameColour(graph, coloring, u, i)
  {
    if k > 0 {
      ConflictsEmpty(graph, coloring, k - 1);
      var u := k - 1;
      var row := RowConflicts(u, graph[u], coloring);
      RowConflictsMembers(u, graph[u], coloring);
      if exists i :: 0 <= i < |graph[u]| && SameColour(graph, coloring, u, i) {
        var i :| 0 <= i < |graph[u]| && SameColour(graph, coloring, u, i);
        assert Conflict(u + 1, graph[u][i] + 1, coloring[u]) in row;
      }
      if |row| > 0 {
        assert row[0] in row;
        var i :| 0 <= i < |graph[u]| && u < graph[u][i] < |coloring| && coloring[u] == coloring[graph[u][i]] &&
          row[0] == Conflict(u + 1, graph[u][i] + 1, coloring[u]);
        assert SameColour(graph, coloring, u, i);
      }
      assert |row| == 0 <==> forall i :: 0 <= i < |graph[u]| ==> !SameColour(graph, coloring, u, i);
    }
  }

  /** Once the graph is read and the lengths agree, the colouring is reported valid exactly
      when it is proper; otherwise the message gives the number of conflicts, the first five
      of them, and whether there were more. */
  lemma ReportMeaning(graph: seq<seq<int>>, coloring: seq<int>)
    requires |graph| == |coloring|
    ensures Report(Conflicts(graph, coloring, |graph|)).valid <==> Proper(graph, coloring)
    ensures !Proper(graph, coloring) ==>
      var cs := Conflicts(graph, coloring, |graph|);
      Report(cs).message == InvalidEdges(|cs|, cs[..if |cs| < 5 then |cs| else 5], |cs| > 5)
  {
    ConflictsEmpty(graph, coloring, |graph|);
  }

  /** The conflicts of u's list are the same-coloured later neighbours of u, 1-based. */
  lemma ConflictsOfRow(graph: seq<seq<int>>, coloring: seq<int>, u: int)
    requires |graph| == |coloring| && 0 <= u < |graph|
    ensures forall c :: c in RowConflicts(u, graph[u], coloring) <==>
      exists i :: 0 <= i < |graph[u]| && SameColour(graph, coloring, u, i) &&
        c == Conflict(u + 1, graph[u][i] + 1, coloring[u])
  {
    RowConflictsMembers(u, graph[u], coloring);
  }

  /** On symmetric lists (as `parse_graph_file` builds them) a proper colouring gives the two
      ends of every edge different colours; loops are never reported. */
  lemma ProperOnSymmetric(graph: seq<seq<int>>, coloring: seq<int>)
    requires |graph| == |coloring|
    requires forall u, i :: 0 <= u < |graph| && 0 <= i < |graph[u]| ==> 0 <= graph[u][i] < |graph|
    requires forall u, v :: 0 <= u < |graph| && 0 <= v < |graph| ==> (v in graph[u] <==> u in graph[v])
    ensures Proper(graph, coloring) <==>
      forall u, i :: 0 <= u < |graph| && 0 <= i < |graph[u]| && graph[u][i] != u ==> coloring[u] != coloring[graph[u][i]]
  {
    if Proper(graph, coloring) {
      forall u, i | 0 <= u < |graph| && 0 <= i < |graph[u]| && graph[u][i] != u
        ensures coloring[u] != coloring[graph[u][i]]
      {
        var v := graph[u][i];
        if v < u {
          assert u in graph[v];
          var j :| 0 <= j < |graph[v]| && graph[v][j] == u;
          assert !SameColour(graph, coloring, v, j);
        } else {
          assert !SameColour(graph, coloring, u, i);
        }
      }
    }
  }

  // =======================================================================================
  // verify_equitable_coloring

  /** The colours of xs in order of first occurrence (the key order of `color_counts`). */
  function FirstOccurrences(xs: seq<int>): (r: seq<int>)
    ensures forall x :: x in r <==> x in xs
  {
    if |xs| == 0 then []
    else
      var r := FirstOccurrences(xs[..|xs| - 1]);
      assert forall x :: x in xs <==> x in xs[..|xs| - 1] || x == xs[|xs| - 1];
      if xs[|xs| - 1] in r then r else r + [xs[|xs| - 1]]
  }

  /** Each colour is a key once. */
  lemma {:induction false} FirstOccurrencesDistinct(xs: seq<int>)
    ensures forall i, j :: 0 <= i < j < |FirstOccurrences(xs)| ==> FirstOccurrences(xs)[i] != FirstOccurrences(xs)[j]
  {
    if |xs| > 0 {
      var prev := xs[..|xs| - 1];
      FirstOccurrencesDistinct(prev);
      var r, y := FirstOccurrences(prev), xs[|xs| - 1];
      if y in r {
        assert FirstOccurrences(xs) == r;
      } else {
        var r2 := r + [y];
        assert FirstOccurrences(xs) == r2;
        forall i, j | 0 <= i < j < |r2|
          ensures r2[i] != r2[j]
        {
          assert r2[i] == r[i] && r[i] in r;
          if j == |r| {
            assert r2[j] == y;
          } else {
            assert r2[j] == r[j];
          }
        }
      }
    }
  }

  /** The key at p occurs nowhere else among the keys. */
  lemma FirstOccurrencesOnce(xs: seq<int>, p: nat)
    requires p < |FirstOccurrences(xs)|
    ensures var r := FirstOccurrences(xs);
      forall i :: 0 <= i < |r| && i != p ==> r[i] != r[p]
  {
    FirstOccurrencesDistinct(xs);
  }

  /** `[m[k] for k in keys]`. */
  function Values(keys: seq<int>, m: map<int, nat>): (r: seq<nat>)
    requires forall i :: 0 <= i < |keys| ==> keys[i] in m
    ensures |r| == |keys|
    ensures forall i :: 0 <= i < |keys| ==> r[i] == m[keys[i]]
  {
    if |keys| == 0 then [] else [m[keys[0]]] + Values(keys[1..], m)
  }

  /** `sum(xs)`. */
  function Total(xs: seq<int>): int
  {
    if |xs| == 0 then 0 else xs[0] + Total(xs[1..])
  }

  lemma {:induction false} TotalAppend(a: seq<int>, b: seq<int>)
    ensures Total(a + b) == Total(a) + Total(b)
  {
    if |a| > 0 {
      assert (a + b)[1..] == a[1..] + b;
      TotalAppend(a[1..], b);
    } else {
      assert a + b == b;
    }
  }

  /** Adding one to an entry adds one to the sum. */
  lemma {:induction false} TotalIncrement(xs: seq<int>, p: nat, v: int)
    requires p < |xs| && v == xs[p] + 1
    ensures Total(xs[p := v]) == Total(xs) + 1
  {
    var ys := xs[p := v];
    if p == 0 {
      assert ys[1..] == xs[1..];
    } else {
      assert ys[1..] == xs[1..][p - 1 := v];
      TotalIncrement(xs[1..], p - 1, v);
    }
  }

  /** `color_counts` after the counting loop has seen the colours xs: the count of each
      colour seen, updated by `color_counts.get(color, 0) + 1`. */
  function CountMap(xs: seq<int>): (r: map<int, nat>)
    ensures |r| <= |xs|
  {
    if |xs| == 0 then map[]
    else
      var m := CountMap(xs[..|xs| - 1]);
      var c := xs[|xs| - 1];
      m[c := if c in m then m[c] + 1 else 1]
  }

  /** The colours counted are those seen, each with the number of times it was seen. */
  lemma {:induction false} CountMapCounts(xs: seq<int>)
    ensures forall c :: c in CountMap(xs) <==> c in xs
    ensures forall c :: c in CountMap(xs) ==> CountMap(xs)[c] == multiset(xs)[c]
  {
    if |xs| > 0 {
      var prev, c := xs[..|xs| - 1], xs[|xs| - 1];
      CountMapCounts(prev);
      assert xs == prev + [c];
      assert multiset(xs) == multiset(prev) + multiset{c};
    }
  }

  /** There is one count per key, and the counts, listed in key order, add up to the number
      of colours seen. */
  lemma {:induction false} CountMapTotal(xs: seq<int>)
    ensures |CountMap(xs)| == |FirstOccurrences(xs)|
    ensures forall i :: 0 <= i < |FirstOccurrences(xs)| ==> FirstOccurrences(xs)[i] in CountMap(xs)
    ensures Total(Values(FirstOccurrences(xs), CountMap(xs))) == |xs|
  {
    CountMapCounts(xs);
    if |xs| > 0 {
      var prev, c := xs[..|xs| - 1], xs[|xs| - 1];
      var keys, counts := FirstOccurrences(prev), CountMap(prev);
      CountMapTotal(prev);
      CountMapCounts(prev);
      if c in counts {
        var p :| 0 <= p < |keys| && keys[p] == c;
        FirstOccurrencesOnce(prev, p);
        CountSeen(keys, counts, p, c);
      } else {
        CountFresh(keys, counts, c);
      }
    }
  }

  /** `color_counts.values()` after the counting loop: the size of each colour class, in the
      order the colours first appear. */
  function ClassSizes(xs: seq<int>): (r: seq<nat>)
    ensures |r| == |FirstOccurrences(xs)|
  {
    CountMapTotal(xs);
    Values(FirstOccurrences(xs), CountMap(xs))
  }

  /** Entry i of `color_counts.values()` is the number of vertices with the i-th colour. */
  lemma ClassSizesCount(xs: seq<int>)
    ensures forall i :: 0 <= i < |ClassSizes(xs)| ==>
      ClassSizes(xs)[i] == multiset(xs)[FirstOccurrences(xs)[i]]
  {
    CountMapTotal(xs);
    var keys, m := FirstOccurrences(xs), CountMap(xs);
    assert ClassSizes(xs) == Values(keys, m);
    forall i | 0 <= i < |keys|
      ensures Values(keys, m)[i] == multiset(xs)[keys[i]]
    {
      CountOf(xs, keys[i]);
    }
  }

  /** The count kept for colour c is its number of occurrences. */
  lemma CountOf(xs: seq<int>, c: int)
    requires c in CountMap(xs)
    ensures CountMap(xs)[c] == multiset(xs)[c]
  {
    CountMapCounts(xs);
  }

  /** Counting a colour that is already a key adds one to the sum of the counts. */
  lemma CountSeen(keys: seq<int>, counts: map<int, nat>, p: nat, c: int)
    requires (forall i :: 0 <= i < |keys| ==> keys[i] in counts) && p < |keys| && keys[p] == c
    requires forall i :: 0 <= i < |keys| && i != p ==> keys[i] != c
    ensures Total(Values(keys, counts[c := counts[c] + 1])) == Total(Values(keys, counts)) + 1
  {
    ValuesUpdate(keys, counts, p, c, counts[c] + 1);
    TotalIncrement(Values(keys, counts), p, counts[c] + 1);
  }

  /** Counting a new colour, which becomes the last key, adds one to the sum of the counts. */
  lemma CountFresh(keys: seq<int>, counts: map<int, nat>, c: int)
    requires (forall i :: 0 <= i < |keys| ==> keys[i] in counts) && c !in keys
    ensures Total(Values(keys + [c], counts[c := 1])) == Total(Values(keys, counts)) + 1
  {
    ValuesExtend(keys, counts, c, 1);
    TotalAppend(Values(keys, counts), [1]);
    assert [1][1..] == [];
  }

  /** A new count for the key c at p changes that entry of the values only. */
  lemma ValuesUpdate(keys: seq<int>, m: map<int, nat>, p: nat, c: int, v: nat)
    requires (forall i :: 0 <= i < |keys| ==> keys[i] in m) && p < |keys| && keys[p] == c
    requires forall i :: 0 <= i < |keys| && i != p ==> keys[i] != c
    ensures Values(keys, m[c := v]) == Values(keys, m)[p := v]
  {
  }

  /** A new key with count v adds v at the end of the values. */
  lemma ValuesExtend(keys: seq<int>, m: map<int, nat>, c: int, v: nat)
    requires (forall i :: 0 <= i < |keys| ==> keys[i] in m) && c !in keys
    ensures Values(keys + [c], m[c := v]) == Values(keys, m) + [v]
  {
  }

  /** The counting loop of `verify_equitable_coloring`: the keys of `color_counts` in
      insertion order, and `color_counts` itself. */
  method CountColors(coloring: seq<int>) returns (keys: seq<int>, counts: map<int, nat>)
    ensures keys == FirstOccurrences(coloring) && counts == CountMap(coloring)
  {
    keys, counts := [], map[];
    for k := 0 to |coloring|
      invariant keys == FirstOccurrences(coloring[..k]) && counts == CountMap(coloring[..k])
    {
      var color := coloring[k];
      assert coloring[..k + 1][..k] == coloring[..k];
      CountMapCounts(coloring[..k]);
      if color in counts {
        counts := counts[color := counts[color] + 1];
      } else {
        keys := keys + [color];
        counts := counts[color := 1];
      }
    }
    assert coloring[..|coloring|] == coloring;
  }

  /** `min(xs)`. */
  function Least(xs: seq<int>): (m: int)
    requires |xs| > 0
    ensures m in xs && forall i :: 0 <= i < |xs| ==> m <= xs[i]
  {
    if |xs| == 1 then xs[0]
    else
      var r := Least(xs[1..]);
      assert forall i :: 1 <= i < |xs| ==> xs[i] == xs[1..][i - 1];
      if xs[0] <= r then xs[0] else r
  }

  /** `max(xs)`. */
  function Greatest(xs: seq<int>): (m: int)
    requires |xs| > 0
    ensures m in xs && forall i :: 0 <= i < |xs| ==> m >= xs[i]
  {
    if |xs| == 1 then xs[0]
    else
      var r := Greatest(xs[1..]);
      assert forall i :: 1 <= i < |xs| ==> xs[i] == xs[1..][i - 1];
      if xs[0] >= r then xs[0] else r
  }

  predicate Sorted(xs: seq<int>)
  {
    forall i, j :: 0 <= i < j < |xs| ==> xs[i] <= xs[j]
  }

  /** A lower bound of xs bounds every sequence with the same elements. */
  lemma LowerBound(a: int, xs: seq<int>, ys: seq<int>)
    requires multiset(ys) == multiset(xs) && forall i :: 0 <= i < |xs| ==> a <= xs[i]
    ensures forall i :: 0 <= i < |ys| ==> a <= ys[i]
  {
    forall i | 0 <= i < |ys|
      ensures a <= ys[i]
    {
      assert ys[i] in multiset(ys);
      assert ys[i] in xs;
    }
  }

  lemma SortedCons(a: int, xs: seq<int>)
    requires Sorted(xs) && forall i :: 0 <= i < |xs| ==> a <= xs[i]
    ensures Sorted([a] + xs)
  {
    var ys := [a] + xs;
    assert forall i :: 0 < i < |ys| ==> ys[i] == xs[i - 1];
  }

  /** x put into the sorted xs at its place. */
  function Insert(x: int, xs: seq<int>): (r: seq<int>)
    requires Sorted(xs)
    ensures Sorted(r) && multiset(r) == multiset(xs) + multiset{x}
  {
    if |xs| == 0 then [x]
    else if x <= xs[0] then
      SortedCons(x, xs);
      [x] + xs
    else
      var rest := Insert(x, xs[1..]);
      InsertBehind(x, xs, rest);
      [xs[0]] + rest
  }

  /** x belongs behind the head of xs: the head, then x inserted into the tail. */
  lemma InsertBehind(x: int, xs: seq<int>, rest: seq<int>)
    requires Sorted(xs) && |xs| > 0 && xs[0] < x
    requires Sorted(rest) && multiset(rest) == multiset(xs[1..]) + multiset{x}
    ensures Sorted([xs[0]] + rest) && multiset([xs[0]] + rest) == multiset(xs) + multiset{x}
  {
    var tail := xs[1..];
    HeadBound(x, xs);
    LowerBound(xs[0], [x] + tail, rest);
    SortedCons(xs[0], rest);
    assert xs == [xs[0]] + tail;
  }

  /** The head of a sorted xs bounds x and the tail. */
  lemma HeadBound(x: int, xs: seq<int>)
    requires Sorted(xs) && |xs| > 0 && xs[0] < x
    ensures multiset([x] + xs[1..]) == multiset(xs[1..]) + multiset{x}
    ensures forall i :: 0 <= i < |[x] + xs[1..]| ==> xs[0] <= ([x] + xs[1..])[i]
  {
    var others := [x] + xs[1..];
    assert forall i :: 0 < i < |others| ==> others[i] == xs[i];
  }

  /** `sorted(xs)`: ascending, with the same elements. */
  function Sort(xs: seq<int>): (r: seq<int>)
    ensures Sorted(r) && multiset(r) == multiset(xs)
  {
    if |xs| == 0 then []
    else
      assert xs == [xs[0]] + xs[1..];
      Insert(xs[0], Sort(xs[1..]))
  }

  lemma {:induction false} InsertTotal(x: int, xs: seq<int>)
    requires Sorted(xs)
    ensures Total(Insert(x, xs)) == x + Total(xs)
  {
    if |xs| == 0 {
      assert [x][1..] == [];
    } else if x <= xs[0] {
      assert ([x] + xs)[1..] == xs;
    } else {
      var rest := Insert(x, xs[1..]);
      InsertTotal(x, xs[1..]);
      assert ([xs[0]] + rest)[1..] == rest;
    }
  }

  /** Sorting keeps the length, the elements and the sum. */
  lemma {:induction false} SortKeeps(xs: seq<int>)
    ensures |Sort(xs)| == |xs| && (forall c :: c in Sort(xs) <==> c in xs)
    ensures Total(Sort(xs)) == Total(xs)
  {
    var s := Sort(xs);
    assert |s| == |multiset(s)| == |multiset(xs)| == |xs|;
    forall c
      ensures c in s <==> c in xs
    {
      assert c in s <==> c in multiset(s);
      assert c in xs <==> c in multiset(xs);
    }
    if |xs| > 0 {
      SortKeeps(xs[1..]);
      InsertTotal(xs[0], Sort(xs[1..]));
    }
  }

  /** The dictionary `verify_equitable_coloring` returns. */
  datatype Equitability = Equitability(
    isEquitable: bool,
    correctK: bool,
    colorsUsed: seq<int>,
    numColorsUsed: nat,
    expectedK: Option<int>,
    minCount: int,
    maxCount: int,
    colorCounts: map<int, nat>,
    countDistribution: seq<int>)

  /** `expected_k` is falsy: `None` or 0. */
  predicate Falsy(expectedK: Option<int>)
  {
    expectedK == None || expectedK == Some(0)
  }

  /** With lo and hi the smallest and largest class size, they differ by at most one exactly
      when every two class sizes do. */
  lemma SpreadMeaning(counts: map<int, nat>, lo: int, hi: int)
    requires (exists a :: a in counts && counts[a] == hi) && (exists b :: b in counts && counts[b] == lo)
    requires forall c :: c in counts ==> lo <= counts[c] <= hi
    ensures hi - lo <= 1 <==> forall a, b :: a in counts && b in counts ==> counts[a] <= counts[b] + 1
  {
    var a :| a in counts && counts[a] == hi;
    var b :| b in counts && counts[b] == lo;
  }

  /** `min` and `max` of `list(color_counts.values())` are class sizes and bound every class
      size. */
  lemma CountExtremes(keys: seq<int>, counts: map<int, nat>)
    requires |keys| > 0 && (forall i :: 0 <= i < |keys| ==> keys[i] in counts)
    requires forall c :: c in counts ==> c in keys
    ensures exists a :: a in counts && counts[a] == Least(Values(keys, counts))
    ensures exists b :: b in counts && counts[b] == Greatest(Values(keys, counts))
    ensures forall c :: c in counts ==> Least(Values(keys, counts)) <= counts[c] <= Greatest(Values(keys, counts))
  {
    var vals := Values(keys, counts);
    ValueAttained(keys, counts, Least(vals));
    ValueAttained(keys, counts, Greatest(vals));
    ValuesBound(keys, counts, Least(vals), Greatest(vals));
  }

  /** An entry of the values is the count of some key. */
  lemma ValueAttained(keys: seq<int>, counts: map<int, nat>, v: int)
    requires (forall i :: 0 <= i < |keys| ==> keys[i] in counts) && v in Values(keys, counts)
    ensures exists a :: a in counts && counts[a] == v
  {
    var vals := Values(keys, counts);
    var i :| 0 <= i < |vals| && vals[i] == v;
    var a := keys[i];
    assert a in counts && counts[a] == v;
  }

  /** Bounds on the values bound the count of every key. */
  lemma ValuesBound(keys: seq<int>, counts: map<int, nat>, lo: int, hi: int)
    requires (forall i :: 0 <= i < |keys| ==> keys[i] in counts) && (forall c :: c in counts ==> c in keys)
    requires forall i :: 0 <= i < |keys| ==> lo <= Values(keys, counts)[i] <= hi
    ensures forall c :: c in counts ==> lo <= counts[c] <= hi
  {
    forall c | c in counts
      ensures lo <= counts[c] <= hi
    {
      var p :| 0 <= p < |keys| && keys[p] == c;
      assert Values(keys, counts)[p] == counts[c];
    }
  }

  /** `verify_equitable_coloring(coloring, expected_k)`. An empty colouring makes `min`
      raise `ValueError`. Otherwise: `color_counts` maps exactly the colours used to the
      sizes of their classes; `colors_used` is them in ascending order and `num_colors_used`
      their number; `min_count` and `max_count` are the smallest and largest class size;
      `is_equitable` says that any two class sizes differ by at most one; `correct_k` is
      true when `expected_k` is falsy and otherwise says that exactly `expected_k` colours are
      used; `count_distribution` is the class sizes in ascending order, adding up to the
      number of vertices. */
  method VerifyEquitableColoring(coloring: seq<int>, expectedK: Option<int>) returns (r: Outcome<Equitability>)
    ensures r.Raised? <==> |coloring| == 0
    ensures r.Raised? ==> r.error == ValueError
    ensures r.Returned? ==> forall c :: c in r.value.colorCounts <==> c in coloring
    ensures r.Returned? ==> forall c :: c in r.value.colorCounts ==> r.value.colorCounts[c] == multiset(coloring)[c]
    ensures r.Returned? ==> Sorted(r.value.colorsUsed) && forall c :: c in r.value.colorsUsed <==> c in coloring
    ensures r.Returned? ==> r.value.numColorsUsed == |r.value.colorsUsed| == |r.value.colorCounts|
    ensures r.Returned? ==> exists c :: c in r.value.colorCounts && r.value.colorCounts[c] == r.value.minCount
    ensures r.Returned? ==> forall c :: c in r.value.colorCounts ==> r.value.minCount <= r.value.colorCounts[c]
    ensures r.Returned? ==> exists c :: c in r.value.colorCounts && r.value.colorCounts[c] == r.value.maxCount
    ensures r.Returned? ==> forall c :: c in r.value.colorCounts ==> r.value.colorCounts[c] <= r.value.maxCount
    ensures r.Returned? ==> (r.value.isEquitable <==>
      forall a, b :: a in r.value.colorCounts && b in r.value.colorCounts ==> r.value.colorCounts[a] <= r.value.colorCounts[b] + 1)
    ensures r.Returned? ==> (r.value.correctK <==> Falsy(expectedK) || r.value.numColorsUsed == expectedK.value)
    ensures r.Returned? ==> r.value.expectedK == expectedK
    ensures r.Returned? ==> Sorted(r.value.countDistribution) && Total(r.value.countDistribution) == |coloring|
    ensures r.Returned? ==> |r.value.countDistribution| == r.value.numColorsUsed
    ensures r.Returned? ==>
      multiset(r.value.countDistribution) == multiset(ClassSizes(coloring))
  {
    var keys, colorCounts := CountColors(coloring);
    CountMapCounts(coloring);
    CountMapTotal(coloring);
    var counts := Values(keys, colorCounts);
    assert counts == ClassSizes(coloring);
    var colorsUsed := Sort(keys);
    if |counts| == 0 {
      // `min([])` raises
      return Raised(ValueError);
    }
    var minCount := Least(counts);
    var maxCount := Greatest(counts);
    var numColorsUsed := |colorsUsed|;
    var isEquitable := maxCount - minCount <= 1;
    var correctK := if !Falsy(expectedK) then numColorsUsed == expectedK.value else true;
    SortKeeps(keys);
    SortKeeps(counts);
    CountExtremes(keys, colorCounts);
    SpreadMeaning(colorCounts, minCount, maxCount);
    r := Returned(Equitability(isEquitable, correctK, colorsUsed, numColorsUsed, expectedK,
                               minCount, maxCount, colorCounts, Sort(counts)));
  }
}
