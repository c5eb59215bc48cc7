/** The two pieces of main.rs that are not file handling: the loop that
    turns the input text into `register_edge` calls, and `draw_graph`. */
module App {
  import opened Text
  import opened Svg
  import opened Nodes
  import opened Graphs

  /** Success, or the message the program would stop with. */
  datatype Result<T> = Ok(value: T) | Err(message: string)

  /** The message of the parser's `panic!`. */
  const ParseFailure: string := "Failed to process text file."

  /** The message of a failed `unwrap` of a missing map entry. */
  const UnwrapNone: string := "called `Option::unwrap()` on a `None` value"

  /** The results of two steps run one after the other: the first failure,
      or both outputs in order. */
  function AppendResults<T>(first: Result<seq<T>>, second: Result<seq<T>>): Result<seq<T>>
  {
    if first.Err? then first
    else if second.Err? then second
    else Ok(first.value + second.value)
  }

  lemma AppendUnit<T>(r: Result<seq<T>>)
    ensures AppendResults(Ok([]), r) == r && AppendResults(r, Ok([])) == r
  {
    if r.Ok? {
      assert [] + r.value == r.value;
      assert r.value + [] == r.value;
    }
  }

  lemma AppendAssoc<T>(a: Result<seq<T>>, b: Result<seq<T>>, c: Result<seq<T>>)
    ensures AppendResults(AppendResults(a, b), c) == AppendResults(a, AppendResults(b, c))
  {
    if a.Ok? && b.Ok? && c.Ok? {
      assert (a.value + b.value) + c.value == a.value + (b.value + c.value);
    }
  }

  // ---------------------------------------------------------------------
  // The edge-list parser (the loop over the input's lines).

  /** The arguments of one `register_edge(a, b, visible)` call. */
  datatype Registration = Registration(a: string, b: string, visible: bool)

  /** What one line contributes: nothing, one registration, or the abort. */
  datatype LineOutcome = Skip | Register(registration: Registration) | Malformed

  /** One input line: an empty line is skipped; otherwise it is split on `-`:
      two fields are a visible edge, three fields a hidden edge whose third
      field is ignored, any other count aborts. Fields are not trimmed. */
  function ParseLine(line: string): (r: LineOutcome)
    ensures r == Skip <==> line == ""
    ensures r == Malformed <==>
              line != "" && Occurrences(line, "-") != 1 && Occurrences(line, "-") != 2
    ensures r.Register? ==> (r.registration.visible <==> Occurrences(line, "-") == 1)
    ensures r.Register? ==> && Occurrences(r.registration.a, "-") == 0
                            && Occurrences(r.registration.b, "-") == 0
                            && r.registration.a + "-" + r.registration.b <= line
    ensures r.Register? && r.registration.visible ==> line == r.registration.a + "-" + r.registration.b
    ensures r.Register? && !r.registration.visible ==> r.registration.a + "-" + r.registration.b + "-" <= line
  {
    if line == "" then Skip
    else
      var fields := Split(line, "-");
      SeparatorsBorderFree();
      SplitCount(line, "-");
      JoinSplit(line, "-");
      SplitPiecesFree(line, "-");
      if |fields| == 2 then
        assert fields == [fields[0], fields[1]];
        JoinThree(fields[0], fields[1], "", "-");
        Register(Registration(fields[0], fields[1], true))
      else if |fields| == 3 then
        assert fields == [fields[0], fields[1], fields[2]];
        JoinThree(fields[0], fields[1], fields[2], "-");
        StringAssoc(fields[0] + "-", fields[1], "-" + fields[2]);
        Register(Registration(fields[0], fields[1], false))
      else Malformed
  }

  /** The registrations of a sequence of lines, in order, or the abort: at
      most one registration per line, and every failure is the `panic!`. */
  function ParseLines(lines: seq<string>): (r: Result<seq<Registration>>)
    ensures r.Err? ==> r == Err(ParseFailure)
    ensures r.Ok? ==> |r.value| == |NonEmptyLines(lines)| <= |lines|
  {
    if lines == [] then Ok([])
    else match ParseLine(lines[0])
      case Skip => ParseLines(lines[1..])
      case Malformed => Err(ParseFailure)
      case Register(r) => AppendResults(Ok([r]), ParseLines(lines[1..]))
  }

  /** The registrations the whole input text produces: its newline-separated
      lines parsed in order; at most one per line. */
  function ParseEdgeList(contents: string): (r: Result<seq<Registration>>)
    ensures r.Err? ==> r == Err(ParseFailure)
    ensures r.Ok? ==> |r.value| <= Occurrences(contents, "\n") + 1
  {
    SeparatorsBorderFree();
    SplitCount(contents, "\n");
    ParseLines(Split(contents, "\n"))
  }

  /** The loop of main.rs: for each newline-separated line, skip it when it
      is empty, otherwise register the edge it describes, or abort. */
  method ParseInput(contents: string) returns (res: Result<seq<Registration>>)
    ensures res == ParseEdgeList(contents)
  {
    var lines := Split(contents, "\n");
    var registered: seq<Registration> := [];
    var i := 0;
    assert lines[0..] == lines;
    AppendUnit(ParseLines(lines));
    while i < |lines|
      invariant 0 <= i <= |lines|
      invariant ParseLines(lines) == AppendResults(Ok(registered), ParseLines(lines[i..]))
    {
      var line := lines[i];
      assert lines[i..][0] == line;
      assert lines[i..][1..] == lines[i + 1..];
      var rest := ParseLines(lines[i + 1..]);
      if line != "" {
        var fields := Split(line, "-");
        if |fields| == 2 || |fields| == 3 {
          var r := Registration(fields[0], fields[1], |fields| == 2);
          assert ParseLine(line) == Register(r);
          AppendAssoc(Ok(registered), Ok([r]), rest);
          registered := registered + [r];
        } else {
          return Err(ParseFailure);
        }
      }
      i := i + 1;
    }
    assert lines[i..] == [];
    AppendUnit(Ok(registered));
    res := Ok(registered);
  }

  /** Lines that are not empty, in order. */
  function NonEmptyLines(lines: seq<string>): (r: seq<string>)
    ensures |r| <= |lines|
    ensures forall i :: 0 <= i < |r| ==> r[i] != "" && r[i] in lines
    ensures forall l {:trigger multiset(r)[l]} :: multiset(r)[l] == if l != "" then multiset(lines)[l] else 0
  {
    if lines == [] then []
    else
      assert lines == [lines[0]] + lines[1..];
      (if lines[0] == "" then [] else [lines[0]]) + NonEmptyLines(lines[1..])
  }

  lemma {:induction false} ParseLinesAppend(xs: seq<string>, ys: seq<string>)
    ensures ParseLines(xs + ys) == AppendResults(ParseLines(xs), ParseLines(ys))
  {
    if xs == [] {
      assert xs + ys == ys;
      AppendUnit(ParseLines(ys));
    } else {
      assert (xs + ys)[0] == xs[0];
      assert (xs + ys)[1..] == xs[1..] + ys;
      ParseLinesAppend(xs[1..], ys);
      if ParseLine(xs[0]).Register? {
        AppendAssoc(Ok([ParseLine(xs[0]).registration]), ParseLines(xs[1..]), ParseLines(ys));
      }
    }
  }

  lemma SeparatorsBorderFree()
    ensures BorderFree("\n") && BorderFree("-")
  {
  }

  /** Joining two inputs with a newline concatenates their registrations:
      registrations come out in the order of the lines, and a malformed line
      anywhere makes the whole parse fail. */
  lemma ParseAppend(first: string, second: string)
    ensures ParseEdgeList(first + "\n" + second)
         == AppendResults(ParseEdgeList(first), ParseEdgeList(second))
  {
    SeparatorsBorderFree();
    SplitAround(first, "\n", second);
    ParseLinesAppend(Split(first, "\n"), Split(second, "\n"));
  }

  /** The empty input registers nothing. */
  lemma ParseEmpty()
    ensures ParseEdgeList("") == Ok([])
  {
    assert Split("", "\n") == [""];
  }

  /** A trailing newline leaves an empty last piece, which registers nothing. */
  lemma ParseTrailingNewline(contents: string)
    ensures ParseEdgeList(contents + "\n") == ParseEdgeList(contents)
  {
    ParseAppend(contents, "");
    ParseEmpty();
    assert contents + "\n" + "" == contents + "\n";
    var r := ParseEdgeList(contents);
    if r.Ok? {
      assert r.value + [] == r.value;
    }
  }

  /** An empty line between two others registers nothing. */
  lemma ParseBlankLine(first: string, second: string)
    ensures ParseEdgeList(first + "\n\n" + second) == ParseEdgeList(first + "\n" + second)
  {
    assert first + "\n\n" + second == first + "\n" + ("" + "\n" + second);
    ParseAppend(first, "\n" + second);
    ParseAppend("", second);
    ParseEmpty();
    assert "" + "\n" + second == "\n" + second;
    var r := ParseEdgeList(second);
    if r.Ok? {
      assert [] + r.value == r.value;
    }
    ParseAppend(first, second);
  }

  /** A text without newlines is a single line. */
  lemma ParseOneLine(line: string)
    requires '\n' !in line
    ensures ParseEdgeList(line) == match ParseLine(line)
                                   case Skip => Ok([])
                                   case Register(r) => Ok([r])
                                   case Malformed => Err(ParseFailure)
  {
    assert "\n" == ['\n'];
    OccurrencesChar(line, '\n');
    SplitFree(line, "\n");
    assert ParseEdgeList(line) == ParseLines([line]);
    assert [line][0] == line && [line][1..] == [];
    if ParseLine(line).Register? {
      AppendUnit(Ok([ParseLine(line).registration]));
    }
  }

  /** The fields of `a-b`, when neither part holds a dash, are exactly `a`
      and `b`. */
  lemma FieldsOfTwo(a: string, b: string)
    requires '-' !in a && '-' !in b
    ensures Split(a + "-" + b, "-") == [a, b]
  {
    SeparatorsBorderFree();
    OccurrencesChar(a, '-');
    OccurrencesChar(b, '-');
    SplitAfterPiece(a, "-", b);
    SplitFree(b, "-");
  }

  /** A line `a-b` registers the visible edge (a, b), the fields taken
      exactly as written: no trimming, empty fields allowed, a trailing
      carriage return kept in `b`. */
  lemma ParseVisibleEdge(a: string, b: string)
    requires '-' !in a && '-' !in b && '\n' !in a && '\n' !in b
    ensures ParseEdgeList(a + "-" + b) == Ok([Registration(a, b, true)])
  {
    var line := a + "-" + b;
    assert '\n' !in line;
    assert line != "" by { assert line[|a|] == '-'; }
    ParseOneLine(line);
    FieldsOfTwo(a, b);
  }

  /** Fields are the raw text between dashes: a space before the dash stays
      in the first field, and a leading dash leaves the first field empty. */
  lemma ParseFieldsVerbatim()
    ensures ParseEdgeList("a -b") == Ok([Registration("a ", "b", true)])
    ensures ParseEdgeList("-b") == Ok([Registration("", "b", true)])
  {
    ParseVisibleEdge("a ", "b");
    assert "a " + "-" + "b" == "a -b";
    ParseVisibleEdge("", "b");
    assert "" + "-" + "b" == "-b";
  }

  /** A carriage return before the newline stays in the second field. */
  lemma ParseCarriageReturnKept()
    ensures ParseEdgeList("a-b\r\n") == Ok([Registration("a", "b\r", true)])
  {
    ParseVisibleEdge("a", "b\r");
    ParseTrailingNewline("a-b\r");
    assert "a" + "-" + "b\r" == "a-b\r";
    assert "a-b\r" + "\n" == "a-b\r\n";
  }

  /** A line `a-b-c` registers the hidden edge (a, b), whatever `c` holds. */
  lemma ParseHiddenEdge(a: string, b: string, c: string)
    requires '-' !in a && '-' !in b && '-' !in c
    requires '\n' !in a && '\n' !in b && '\n' !in c
    ensures ParseEdgeList(a + "-" + b + "-" + c) == Ok([Registration(a, b, false)])
  {
    var rest := b + "-" + c;
    var line := a + "-" + rest;
    StringAssoc(a + "-", b, "-" + c);
    StringAssoc(a + "-" + b, "-", c);
    StringAssoc(b, "-", c);
    assert a + "-" + b + "-" + c == line;
    assert '\n' !in line;
    assert |line| > 0;
    ParseOneLine(line);
    SeparatorsBorderFree();
    assert "-" == ['-'];
    OccurrencesChar(a, '-');
    FieldsOfTwo(b, c);
    SplitAfterPiece(a, "-", rest);
    assert Split(line, "-") == [a, b, c];
  }

  /** A non-empty line whose dash count is neither one nor two makes the
      whole parse fail, whatever surrounds it. */
  lemma ParseMalformedLine(before: string, line: string, after: string)
    requires line != "" && '\n' !in line
    requires Occurrences(line, "-") != 1 && Occurrences(line, "-") != 2
    ensures ParseEdgeList(before + "\n" + line + "\n" + after) == Err(ParseFailure)
  {
    SeparatorsBorderFree();
    SplitCount(line, "-");
    assert ParseLine(line) == Malformed;
    ParseOneLine(line);
    var tail := line + "\n" + after;
    ParseAppend(line, after);
    ParseAppend(before, tail);
    StringAssoc(before + "\n" + line, "\n", after);
    StringAssoc(before + "\n", line, "\n" + after);
    StringAssoc(line, "\n", after);
  }

  lemma {:induction false} ParseLinesFailsIff(lines: seq<string>)
    ensures ParseLines(lines).Err? <==> exists i :: 0 <= i < |lines| && ParseLine(lines[i]) == Malformed
    ensures ParseLines(lines).Err? ==> ParseLines(lines) == Err(ParseFailure)
  {
    if lines != [] {
      ParseLinesFailsIff(lines[1..]);
      if ParseLine(lines[0]) != Malformed {
        assert forall i :: 1 <= i < |lines| ==> lines[i] == lines[1..][i - 1];
        if exists i :: 1 <= i < |lines| && ParseLine(lines[i]) == Malformed {
          var i :| 1 <= i < |lines| && ParseLine(lines[i]) == Malformed;
          assert ParseLine(lines[1..][i - 1]) == Malformed;
        }
      }
    }
  }

  /** The parse fails, with the `panic!` message, exactly when some line is
      malformed. */
  lemma ParseFailsIff(contents: string)
    ensures var lines := Split(contents, "\n");
            && (ParseEdgeList(contents).Err? <==>
                  exists i :: 0 <= i < |lines| && ParseLine(lines[i]) == Malformed)
            && (ParseEdgeList(contents).Err? ==> ParseEdgeList(contents) == Err(ParseFailure))
  {
    assert ParseEdgeList(contents) == ParseLines(Split(contents, "\n"));
    ParseLinesFailsIff(Split(contents, "\n"));
  }

  lemma {:induction false} ParseLinesOrder(lines: seq<string>)
    requires ParseLines(lines).Ok?
    ensures var regs := ParseLines(lines).value;
            var kept := NonEmptyLines(lines);
            && |regs| == |kept|
            && forall i :: 0 <= i < |kept| ==> ParseLine(kept[i]) == Register(regs[i])
  {
    if lines != [] {
      ParseLinesOrder(lines[1..]);
      var regs := ParseLines(lines).value;
      var kept := NonEmptyLines(lines);
      var restRegs := ParseLines(lines[1..]).value;
      var restKept := NonEmptyLines(lines[1..]);
      if lines[0] == "" {
        assert kept == restKept;
        assert regs == restRegs;
      } else {
        var first := ParseLine(lines[0]);
        assert kept == [lines[0]] + restKept;
        assert regs == [first.registration] + restRegs;
        forall i | 0 <= i < |kept|
          ensures ParseLine(kept[i]) == Register(regs[i])
        {
          if i > 0 {
            assert kept[i] == restKept[i - 1] && regs[i] == restRegs[i - 1];
          }
        }
      }
    }
  }

  /** A successful parse registers one edge per non-empty line, the i-th
      registration coming from the i-th non-empty line. */
  lemma ParseOrder(contents: string)
    requires ParseEdgeList(contents).Ok?
    ensures var regs := ParseEdgeList(contents).value;
            var kept := NonEmptyLines(Split(contents, "\n"));
            && |regs| == |kept|
            && forall i :: 0 <= i < |kept| ==> ParseLine(kept[i]) == Register(regs[i])
  {
    ParseLinesOrder(Split(contents, "\n"));
  }

  // ---------------------------------------------------------------------
  // draw_graph

  /** The visible edges, in order. */
  function VisibleEdges(edges: seq<Edge>): (r: seq<Edge>)
    ensures forall i :: 0 <= i < |r| ==> r[i].2
    ensures forall e {:trigger multiset(r)[e]} :: multiset(r)[e] == if e.2 then multiset(edges)[e] else 0
  {
    if edges == [] then []
    else
      assert edges == [edges[0]] + edges[1..];
      (if edges[0].2 then [edges[0]] else []) + VisibleEdges(edges[1..])
  }

  /** The line drawn for an edge between two present nodes. */
  function EdgeLine(show: Formatter, nodes: map<string, Node>, e: Edge, lineColor: string): string
    requires e.0 in nodes && e.1 in nodes
  {
    DrawLine(show, Vector(nodes[e.0].x, nodes[e.0].y), Vector(nodes[e.1].x, nodes[e.1].y), lineColor)
  }

  /** The first loop of `draw_graph`: hidden edges are skipped before their
      endpoints are looked up; a visible edge with a missing endpoint stops
      the program; every other visible edge contributes its line. */
  function EdgeLines(show: Formatter, nodes: map<string, Node>, edges: seq<Edge>,
                     lineColor: string): (r: Result<seq<string>>)
    ensures r.Err? ==> r == Err(UnwrapNone)
    ensures r.Ok? ==> |r.value| == |VisibleEdges(edges)|
  {
    if edges == [] then Ok([])
    else if !edges[0].2 then EdgeLines(show, nodes, edges[1..], lineColor)
    else if edges[0].0 !in nodes || edges[0].1 !in nodes then Err(UnwrapNone)
    else AppendResults(Ok([EdgeLine(show, nodes, edges[0], lineColor)]),
                       EdgeLines(show, nodes, edges[1..], lineColor))
  }

  /** `order` is one enumeration of the node map: every key exactly once.
      The map's iteration order is not specified, so it is a parameter. */
  ghost predicate Enumerates(order: seq<string>, nodes: map<string, Node>)
  {
    && (forall i, j :: 0 <= i < j < |order| ==> order[i] != order[j])
    && (forall k :: k in order <==> k in nodes)
  }

  /** The drawings of the nodes named by `order`, in that order. */
  function NodeDrawings(show: Formatter, nodes: map<string, Node>, order: seq<string>): (r: seq<string>)
    requires forall k :: k in order ==> k in nodes
    ensures |r| == |order|
  {
    if order == [] then []
    else [Draw(show, nodes[order[0]])] + NodeDrawings(show, nodes, order[1..])
  }

  /** What `draw_graph` returns when the node map is enumerated in `order`. */
  function GraphDrawing(show: Formatter, g: Graph, lineColor: string, order: seq<string>): (r: Result<string>)
    requires Enumerates(order, g.nodes)
    ensures r.Err? <==> exists i :: 0 <= i < |g.edges| && g.edges[i].2
                                   && (g.edges[i].0 !in g.nodes || g.edges[i].1 !in g.nodes)
    ensures r.Err? ==> r == Err(UnwrapNone)
  {
    EdgeLinesSucceedIff(show, g.nodes, g.edges, lineColor);
    var lines := EdgeLines(show, g.nodes, g.edges, lineColor);
    if lines.Err? then Err(lines.message)
    else Ok(Concat(lines.value) + Concat(NodeDrawings(show, g.nodes, order)))
  }

  /** `draw_graph`: append the line of every visible edge, in edge order,
      then the drawing of every node, in the map's iteration order. The line
      colour is a parameter: the call in main.rs passes none. */
  method DrawGraph(show: Formatter, g: Graph, lineColor: string, order: seq<string>)
    returns (res: Result<string>)
    requires Enumerates(order, g.nodes)
    ensures res == GraphDrawing(show, g, lineColor, order)
  {
    var svg := "";
    ghost var drawn: seq<string> := [];
    var i := 0;
    assert g.edges[0..] == g.edges;
    AppendUnit(EdgeLines(show, g.nodes, g.edges, lineColor));
    while i < |g.edges|
      invariant 0 <= i <= |g.edges|
      invariant svg == Concat(drawn)
      invariant EdgeLines(show, g.nodes, g.edges, lineColor)
             == AppendResults(Ok(drawn), EdgeLines(show, g.nodes, g.edges[i..], lineColor))
    {
      var edge := g.edges[i];
      EdgeLoopStep(show, g.nodes, g.edges, i, drawn, lineColor);
      if edge.2 == false {
        i := i + 1;
        continue;
      }
      if edge.0 !in g.nodes || edge.1 !in g.nodes {
        return Err(UnwrapNone);
      }
      var a := g.nodes[edge.0];
      var b := g.nodes[edge.1];
      var line := DrawLine(show, Vector(a.x, a.y), Vector(b.x, b.y), lineColor);
      ConcatSnoc(drawn, line);
      svg := svg + line;
      drawn := drawn + [line];
      i := i + 1;
    }
    assert g.edges[i..] == [];
    AppendUnit(Ok(drawn));
    assert EdgeLines(show, g.nodes, g.edges, lineColor) == Ok(drawn);
    ghost var edgePart := svg;
    var j := 0;
    while j < |order|
      invariant 0 <= j <= |order|
      invariant forall k :: k in order[..j] ==> k in g.nodes
      invariant svg == edgePart + Concat(NodeDrawings(show, g.nodes, order[..j]))
    {
      NodeDrawingsStep(show, g.nodes, order, j);
      StringAssoc(edgePart, Concat(NodeDrawings(show, g.nodes, order[..j])), Draw(show, g.nodes[order[j]]));
      svg := svg + Draw(show, g.nodes[order[j]]);
      j := j + 1;
    }
    assert order[..j] == order;
    res := Ok(svg);
  }

  /** The edge loop's result from position `i` on, one step unfolded. */
  lemma EdgeLinesAt(show: Formatter, nodes: map<string, Node>, edges: seq<Edge>, i: nat, lineColor: string)
    requires i < |edges|
    ensures var e := edges[i];
            var rest := EdgeLines(show, nodes, edges[i + 1..], lineColor);
            EdgeLines(show, nodes, edges[i..], lineColor)
            == if !e.2 then rest
               else if e.0 !in nodes || e.1 !in nodes then Err(UnwrapNone)
               else AppendResults(Ok([EdgeLine(show, nodes, e, lineColor)]), rest)
  {
    assert edges[i..][0] == edges[i];
    assert edges[i..][1..] == edges[i + 1..];
  }

  /** One step of the edge loop: a hidden edge is passed over, a visible edge
      with a missing endpoint fails, any other visible edge adds its line. */
  lemma EdgeLoopStep(show: Formatter, nodes: map<string, Node>, edges: seq<Edge>, i: nat,
                     drawn: seq<string>, lineColor: string)
    requires i < |edges|
    requires EdgeLines(show, nodes, edges, lineColor)
          == AppendResults(Ok(drawn), EdgeLines(show, nodes, edges[i..], lineColor))
    ensures var e := edges[i];
            var rest := EdgeLines(show, nodes, edges[i + 1..], lineColor);
            && (!e.2 ==> EdgeLines(show, nodes, edges, lineColor) == AppendResults(Ok(drawn), rest))
            && (e.2 && (e.0 !in nodes || e.1 !in nodes) ==>
                  EdgeLines(show, nodes, edges, lineColor) == Err(UnwrapNone))
            && (e.2 && e.0 in nodes && e.1 in nodes ==>
                  EdgeLines(show, nodes, edges, lineColor)
                  == AppendResults(Ok(drawn + [DrawLine(show, Vector(nodes[e.0].x, nodes[e.0].y),
                                                        Vector(nodes[e.1].x, nodes[e.1].y), lineColor)]),
                                   rest))
  {
    EdgeLinesAt(show, nodes, edges, i, lineColor);
    var e := edges[i];
    if e.2 && e.0 in nodes && e.1 in nodes {
      AppendAssoc(Ok(drawn), Ok([EdgeLine(show, nodes, e, lineColor)]),
                  EdgeLines(show, nodes, edges[i + 1..], lineColor));
    }
  }

  /** The node loop's output after one more node. */
  lemma NodeDrawingsStep(show: Formatter, nodes: map<string, Node>, order: seq<string>, j: nat)
    requires forall k :: k in order ==> k in nodes
    requires j < |order|
    ensures forall k :: k in order[..j + 1] ==> k in nodes
    ensures order[j] in nodes
    ensures Concat(NodeDrawings(show, nodes, order[..j + 1]))
         == Concat(NodeDrawings(show, nodes, order[..j])) + Draw(show, nodes[order[j]])
  {
    assert order[..j + 1] == order[..j] + [order[j]];
    assert forall k :: k in order[..j + 1] ==> k in order;
    NodeDrawingsSnoc(show, nodes, order[..j], order[j]);
    ConcatSnoc(NodeDrawings(show, nodes, order[..j]), Draw(show, nodes[order[j]]));
  }

  lemma {:induction false} NodeDrawingsAppend(show: Formatter, nodes: map<string, Node>,
                                              xs: seq<string>, ys: seq<string>)
    requires forall k :: k in xs + ys ==> k in nodes
    ensures NodeDrawings(show, nodes, xs + ys)
         == NodeDrawings(show, nodes, xs) + NodeDrawings(show, nodes, ys)
  {
    if xs == [] {
      assert xs + ys == ys;
    } else {
      assert (xs + ys)[0] == xs[0];
      assert (xs + ys)[1..] == xs[1..] + ys;
      NodeDrawingsAppend(show, nodes, xs[1..], ys);
    }
  }

  lemma NodeDrawingsSnoc(show: Formatter, nodes: map<string, Node>, xs: seq<string>, k: string)
    requires forall m :: m in xs ==> m in nodes
    requires k in nodes
    ensures NodeDrawings(show, nodes, xs + [k]) == NodeDrawings(show, nodes, xs) + [Draw(show, nodes[k])]
  {
    NodeDrawingsAppend(show, nodes, xs, [k]);
    assert [k][1..] == [];
  }

  /** Edge lines of two edge lists drawn one after the other. */
  lemma {:induction false} EdgeLinesAppend(show: Formatter, nodes: map<string, Node>,
                                           xs: seq<Edge>, ys: seq<Edge>, lineColor: string)
    ensures EdgeLines(show, nodes, xs + ys, lineColor)
         == AppendResults(EdgeLines(show, nodes, xs, lineColor), EdgeLines(show, nodes, ys, lineColor))
  {
    if xs == [] {
      assert xs + ys == ys;
      AppendUnit(EdgeLines(show, nodes, ys, lineColor));
    } else {
      assert (xs + ys)[0] == xs[0];
      assert (xs + ys)[1..] == xs[1..] + ys;
      EdgeLinesAppend(show, nodes, xs[1..], ys, lineColor);
      if xs[0].2 && xs[0].0 in nodes && xs[0].1 in nodes {
        AppendAssoc(Ok([EdgeLine(show, nodes, xs[0], lineColor)]),
                    EdgeLines(show, nodes, xs[1..], lineColor), EdgeLines(show, nodes, ys, lineColor));
      }
    }
  }

  /** Hidden edges contribute nothing, not even a lookup: drawing only the
      visible edges gives the same result. */
  lemma {:induction false} HiddenEdgesIgnored(show: Formatter, nodes: map<string, Node>,
                                              edges: seq<Edge>, lineColor: string)
    ensures EdgeLines(show, nodes, edges, lineColor)
         == EdgeLines(show, nodes, VisibleEdges(edges), lineColor)
  {
    if edges != [] {
      var tail := edges[1..];
      HiddenEdgesIgnored(show, nodes, tail, lineColor);
      var shown := VisibleEdges(tail);
      if edges[0].2 {
        var v := [edges[0]] + shown;
        assert VisibleEdges(edges) == v;
        assert v[0] == edges[0] && v[1..] == shown;
      } else {
        assert VisibleEdges(edges) == [] + shown;
        assert [] + shown == shown;
      }
    }
  }

  /** The edge loop succeeds exactly when both endpoints of every visible
      edge are in the node map; hidden edges may name missing nodes. */
  lemma {:induction false} EdgeLinesSucceedIff(show: Formatter, nodes: map<string, Node>,
                                               edges: seq<Edge>, lineColor: string)
    ensures EdgeLines(show, nodes, edges, lineColor).Ok? <==>
            forall i :: 0 <= i < |edges| && edges[i].2 ==> edges[i].0 in nodes && edges[i].1 in nodes
    ensures EdgeLines(show, nodes, edges, lineColor).Err? ==>
            EdgeLines(show, nodes, edges, lineColor) == Err(UnwrapNone)
  {
    if edges != [] {
      EdgeLinesSucceedIff(show, nodes, edges[1..], lineColor);
      assert forall i :: 1 <= i < |edges| ==> edges[i] == edges[1..][i - 1];
      if !(forall i :: 1 <= i < |edges| && edges[i].2 ==> edges[i].0 in nodes && edges[i].1 in nodes) {
        var i :| 1 <= i < |edges| && edges[i].2 && !(edges[i].0 in nodes && edges[i].1 in nodes);
        assert edges[1..][i - 1] == edges[i];
      }
    }
  }

  /** When the edge loop succeeds it yields one line per visible edge, the
      i-th visible edge giving the i-th line. */
  lemma {:induction false} EdgeLinesShape(show: Formatter, nodes: map<string, Node>,
                                          edges: seq<Edge>, lineColor: string)
    requires EdgeLines(show, nodes, edges, lineColor).Ok?
    ensures var lines := EdgeLines(show, nodes, edges, lineColor).value;
            var shown := VisibleEdges(edges);
            && |lines| == |shown|
            && forall i :: 0 <= i < |shown| ==>
                 shown[i].0 in nodes && shown[i].1 in nodes
                 && lines[i] == EdgeLine(show, nodes, shown[i], lineColor)
  {
    if edges != [] {
      var tail := edges[1..];
      var e := edges[0];
      if !e.2 {
        EdgeLinesShape(show, nodes, tail, lineColor);
        assert VisibleEdges(edges) == [] + VisibleEdges(tail);
        assert [] + VisibleEdges(tail) == VisibleEdges(tail);
      } else {
        var restLines := EdgeLines(show, nodes, tail, lineColor);
        assert restLines.Ok?;
        EdgeLinesShape(show, nodes, tail, lineColor);
        var rest := VisibleEdges(tail);
        var shown := [e] + rest;
        var lines := [EdgeLine(show, nodes, e, lineColor)] + restLines.value;
        assert VisibleEdges(edges) == shown;
        assert EdgeLines(show, nodes, edges, lineColor).value == lines;
        forall i | 1 <= i < |shown|
          ensures shown[i].0 in nodes && shown[i].1 in nodes
          ensures lines[i] == EdgeLine(show, nodes, shown[i], lineColor)
        {
          assert shown[i] == rest[i - 1];
          assert lines[i] == restLines.value[i - 1];
        }
      }
    }
  }

  lemma {:induction false} DistinctMultiset(order: seq<string>)
    requires forall i, j :: 0 <= i < j < |order| ==> order[i] != order[j]
    ensures forall k :: multiset(order)[k] == if k in order then 1 else 0
  {
    if order != [] {
      DistinctMultiset(order[1..]);
      assert order == [order[0]] + order[1..];
      assert forall j :: 0 <= j < |order[1..]| ==> order[1..][j] != order[0] by {
        forall j | 0 <= j < |order[1..]| ensures order[1..][j] != order[0] {
          assert order[1..][j] == order[j + 1];
        }
      }
      assert order[0] !in order[1..];
      forall k ensures multiset(order)[k] == if k in order then 1 else 0 {
        assert multiset(order) == multiset([order[0]]) + multiset(order[1..]);
      }
    }
  }

  /** Taking the node at position `j` out of an enumeration takes its drawing
      out of the node part. */
  lemma NodeDrawingsRemove(show: Formatter, nodes: map<string, Node>, ys: seq<string>, j: nat)
    requires forall k :: k in ys ==> k in nodes
    requires j < |ys|
    ensures forall k :: k in ys[..j] + ys[j + 1..] ==> k in nodes
    ensures multiset(NodeDrawings(show, nodes, ys))
         == multiset{Draw(show, nodes[ys[j]])} + multiset(NodeDrawings(show, nodes, ys[..j] + ys[j + 1..]))
  {
    var before, after := ys[..j], ys[j + 1..];
    var middle := [ys[j]] + after;
    assert ys == before + middle;
    assert middle[0] == ys[j] && middle[1..] == after;
    assert forall k :: k in before + after ==> k in ys;
    var front, back := NodeDrawings(show, nodes, before), NodeDrawings(show, nodes, after);
    var piece := Draw(show, nodes[ys[j]]);
    NodeDrawingsAppend(show, nodes, before, middle);
    assert NodeDrawings(show, nodes, middle) == [piece] + back;
    NodeDrawingsAppend(show, nodes, before, after);
    SpliceMultiset(front, piece, back);
  }

  lemma SpliceMultiset<T>(front: seq<T>, piece: T, back: seq<T>)
    ensures multiset(front + ([piece] + back)) == multiset{piece} + multiset(front + back)
  {
  }

  lemma {:induction false} DrawingsPermute(show: Formatter, nodes: map<string, Node>,
                                           xs: seq<string>, ys: seq<string>)
    requires forall k :: k in xs ==> k in nodes
    requires multiset(xs) == multiset(ys)
    ensures forall k :: k in ys ==> k in nodes
    ensures multiset(NodeDrawings(show, nodes, xs)) == multiset(NodeDrawings(show, nodes, ys))
    decreases |xs|
  {
    assert forall k :: k in ys ==> k in nodes by {
      forall k | k in ys ensures k in nodes {
        assert k in multiset(ys);
      }
    }
    if xs == [] {
      assert |ys| == |multiset(ys)| == 0;
    } else {
      var k := xs[0];
      assert k in multiset(ys);
      var j :| 0 <= j < |ys| && ys[j] == k;
      var rest := ys[..j] + ys[j + 1..];
      RemoveMatching(xs, ys, j);
      assert forall m :: m in xs[1..] ==> m in xs;
      DrawingsPermute(show, nodes, xs[1..], rest);
      NodeDrawingsRemove(show, nodes, ys, j);
      assert NodeDrawings(show, nodes, xs)
          == [Draw(show, nodes[k])] + NodeDrawings(show, nodes, xs[1..]);
    }
  }

  /** Taking the first element out of `xs` and a matching one out of `ys`
      leaves two sequences that are still permutations of each other. */
  lemma RemoveMatching<T>(xs: seq<T>, ys: seq<T>, j: nat)
    requires multiset(xs) == multiset(ys) && xs != []
    requires j < |ys| && ys[j] == xs[0]
    ensures multiset(xs[1..]) == multiset(ys[..j] + ys[j + 1..])
  {
    var k, rest := xs[0], ys[..j] + ys[j + 1..];
    assert ys == ys[..j] + [k] + ys[j + 1..];
    assert xs == [k] + xs[1..];
    assert multiset(ys) == multiset(ys[..j]) + multiset([k]) + multiset(ys[j + 1..]);
    assert multiset(rest) == multiset(ys[..j]) + multiset(ys[j + 1..]);
    assert multiset(xs) == multiset([k]) + multiset(xs[1..]);
    forall m ensures multiset(xs[1..])[m] == multiset(rest)[m] {
      assert multiset(xs)[m] == multiset(ys)[m];
    }
  }

  /** The node part of the drawing does not depend on the map's iteration
      order beyond the order of its pieces: any two enumerations give the
      same node drawings, as a multiset. */
  lemma NodeOrderIrrelevant(show: Formatter, nodes: map<string, Node>,
                            order1: seq<string>, order2: seq<string>)
    requires Enumerates(order1, nodes) && Enumerates(order2, nodes)
    ensures multiset(NodeDrawings(show, nodes, order1)) == multiset(NodeDrawings(show, nodes, order2))
  {
    DistinctMultiset(order1);
    DistinctMultiset(order2);
    assert multiset(order1) == multiset(order2) by {
      forall k ensures multiset(order1)[k] == multiset(order2)[k] {
      }
    }
    DrawingsPermute(show, nodes, order1, order2);
  }

  /** There is one node drawing per node; hidden nodes add the empty string. */
  lemma {:induction false} NodeDrawingsShape(show: Formatter, nodes: map<string, Node>,
                                             order: seq<string>)
    requires forall k :: k in order ==> k in nodes
    ensures var drawings := NodeDrawings(show, nodes, order);
            && |drawings| == |order|
            && forall i :: 0 <= i < |order| ==>
                 drawings[i] == Draw(show, nodes[order[i]])
                 && (drawings[i] == "" <==> !nodes[order[i]].visible)
  {
    if order != [] {
      NodeDrawingsShape(show, nodes, order[1..]);
    }
  }
}
