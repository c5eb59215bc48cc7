# physics-graph: the text side, in Dafny

physics-graph reads a graph from a text file and writes it out as an SVG
picture. Each line of the file names an edge `a-b`; an edge written
`a-b-x` is hidden. A force-directed layout then places the nodes. This
project models the parts of the program that turn text into data and data
into SVG text:

- the loop in `main` that parses the edge list;
- `draw_graph`, which renders the visible edges as lines and the nodes as
  labels;
- the SVG string templates of `svg.rs`, among them `draw_label_multiline`,
  which splits a label on the two-character sequence backslash-n;
- `Node::draw`;
- the initial state built by `Graph::new`.

Modules follow the source files:

| module | file | models |
|---|---|---|
| `Text` | text.dfy | Rust's `str::split` for a string pattern, joining, counting occurrences |
| `Svg` | svg.dfy | `src/svg.rs` |
| `Nodes` | node.dfy | `src/node.rs` |
| `Graphs` | graph.dfy | `src/graph.rs` |
| `App` | main.dfy | the parsing loop and `draw_graph` of `src/main.rs` |

Numbers are the source's `f32` values taken as reals. How Rust prints a
number (`Display` for `f32`) is the parameter `show: real -> string`. Every
template is therefore stated for any number printer: the printer is the
same function everywhere, but its output is not fixed.

`split` follows Rust: it yields the pieces between the leftmost
non-overlapping matches, in order, with nothing trimmed, and always at least
one piece. The round-trip, piece-count and inverse lemmas are proved for
separators that cannot overlap themselves. The three separators the program
uses (newline, `-`, backslash-n) are all of that kind.

Things that stop the program become error results carrying the message
Rust would print:

- the `panic!` on a malformed line gives `Err("Failed to process text file.")`;
- a failed `unwrap` of a missing node gives the standard `Option::unwrap`
  message.

`Node::draw` takes `&self`, and the model's values cannot change, so drawing
alters nothing.

## Model

| member | source | states |
|---|---|---|
| Text.Split | src/main.rs:47 | `split` yields at least one piece, and the first piece is a prefix of the input |
| Text.JoinSplit | src/svg.rs:64 | joining the pieces of a split with the separator gives back the input |
| Text.SplitPiecesFree | src/svg.rs:64 | no piece of a split contains the separator |
| Text.SplitJoin | src/main.rs:49 | splitting separator-free pieces joined by a non-self-overlapping separator gives back exactly those pieces, in order |
| Text.SplitAround | src/main.rs:47 | splitting `a + sep + b` gives the pieces of `a` followed by the pieces of `b` |
| Text.SplitCount | src/svg.rs:64 | a split has one more piece than the separator has occurrences |
| Text.OccurrencesChar | src/main.rs:49 | a one-character separator occurs nowhere exactly when the character is absent |
| Svg.MoveTo | src/svg.rs:4-9 | `M`, then x and y separated by a comma, then one space |
| Svg.LineTo | src/svg.rs:30-35 | `L`, then x and y separated by a comma and a space, with no trailing space |
| Svg.Start | src/svg.rs:12-14 | the `svg` tag whose viewBox holds x, y, width and height joined by spaces, in that order, with the SVG namespace |
| Svg.StartViewBox | src/svg.rs:13 | when no printed number contains a space, the viewBox value splits back into x, y, width and height, in order |
| Svg.End | src/svg.rs:96-98 | always exactly `</svg>` |
| Svg.DrawLine | src/svg.rs:17-27 | a `line` element from `start` (x1, y1) to `end` (x2, y2), followed by the line style: stroke `color`, width 0.004 |
| Svg.BoxPath | src/svg.rs:40 | the box outline: `move_to` the corner, then down by height, right by width, up by height (a minus sign in front of the printed height), then close |
| Svg.DrawBox | src/svg.rs:38-43 | an unfilled `path` whose data is the box outline, stroked with `color` at width `stroke` |
| Svg.DrawLabel | src/svg.rs:46-51 | the opening tag (x, y, `middle` anchor, font size, colour), then the label text verbatim with no escaping, then `</text>`; the tag does not depend on the text |
| Svg.DrawBoxWithLabel | src/svg.rs:77-93 | exactly the `draw_box` output, one space, then an unanchored corner `text` element |
| Svg.RowHeight | src/svg.rs:61-70 | after `i` rows, y has moved exactly `i` font sizes down from the starting y: `y + i * font_size` |
| Svg.LabelElements | src/svg.rs:64-71 | one element per segment; element `i` is the `draw_label` output for segment `i` at `y + i * font_size`, with the same x, font size and colour on all |
| Svg.MultilineLabel | src/svg.rs:54-74 | the output begins with the opening tag of a label element at the starting x and y, font size and colour, whatever the label |
| Svg.DrawLabelMultiline | src/svg.rs:54-74 | the loop's output is the concatenation of one label element per backslash-n segment, element `i` at row height `i` |
| Svg.MultilineStep | src/svg.rs:65-70 | one turn of the loop appends the element of the current segment at the current row height |
| Svg.LineBreakBorderFree | src/svg.rs:64 | the separator backslash-n cannot overlap itself |
| Svg.MultilineLayout | src/svg.rs:64-71 | one element per segment. The number of elements is the separator count plus one. Segments are separator-free and join back into the label. Element `i` holds segment `i` at `y + i * font_size`; x, font size, colour and anchor are the same on every element |
| Svg.MultilineSingle | src/svg.rs:54-74 | a label with no backslash-n (the empty label included) renders exactly as `draw_label` renders it |
| Svg.MultilineEmpty | src/svg.rs:64-71 | the empty label yields one element with empty content |
| Svg.MultilineKeepsNewline | src/svg.rs:64 | a real newline character is not a separator: `a` newline `b` is a single element |
| Nodes.Draw | src/node.rs:13-23 | the drawing is empty exactly when the node is hidden; a visible node's drawing ends in a newline |
| Nodes.DrawVisible | src/node.rs:18-22 | a visible node draws its name as a multi-line label at font size 0.05 in black, followed by one newline. There is one element per backslash-n separated part, in order, the first at the node's position and each later one 0.05 lower |
| Nodes.DrawSingleLine | src/node.rs:18-22 | a visible node whose name has no backslash-n draws `draw_label(x, y, 0.05, "black", name)` followed by a newline |
| Nodes.DrawIgnoresColor | src/node.rs:18 | neither the node's colour nor its `visited` flag changes its drawing; the label is always black |
| Graphs.New | src/graph.rs:20-26 | a new graph has no nodes, no edges, and a generator seeded with 48 |
| App.SeparatorsBorderFree | src/main.rs:47-49 | neither newline nor `-` can overlap itself |
| App.ParseLine | src/main.rs:48-53 | a line is skipped exactly when it is empty. A non-empty line is malformed exactly when it holds neither one nor two dashes. A registered edge is visible exactly when the line holds one dash. Its two names hold no dash. A visible edge's line is exactly the first name, a dash and the second name; a hidden edge's line begins with the first name, a dash, the second name and a dash |
| App.ParseLines | src/main.rs:47-55 | a successful parse gives exactly one registration per non-empty line, so at most one per line; every failure carries the `panic!` message |
| App.NonEmptyLines | src/main.rs:48 | the kept lines are exactly the non-empty lines of the input: each non-empty line is kept as many times as it occurs, and the empty line never (as a multiset); no more of them than there are lines |
| App.ParseEdgeList | src/main.rs:47-55 | a successful parse of the whole text registers no more edges than it has newlines plus one; every failure carries the `panic!` message |
| App.ParseInput | src/main.rs:47-55 | the parsing loop registers exactly the edges of the whole-input parse, or fails with its message |
| App.ParseAppend | src/main.rs:47 | parsing two inputs joined by a newline gives their registrations in order, or the first failure |
| App.ParseEmpty | src/main.rs:47-48 | the empty input registers nothing |
| App.ParseTrailingNewline | src/main.rs:47-48 | a trailing newline leaves an empty last line, which registers nothing |
| App.ParseBlankLine | src/main.rs:48 | an empty line between two others registers nothing |
| App.ParseOneLine | src/main.rs:47-53 | a text without newlines is parsed as one line |
| App.FieldsOfTwo | src/main.rs:49 | splitting `a-b` on the dash, when neither part holds a dash, gives exactly `a` and `b` |
| App.ParseVisibleEdge | src/main.rs:49-50 | a line `a-b` registers the visible edge (a, b) with the fields exactly as written |
| App.ParseFieldsVerbatim | src/main.rs:49 | names are the raw text between dashes: `a -b` registers the visible edge (`a ` with its space, `b`), and `-b` registers one whose first name is empty |
| App.ParseCarriageReturnKept | src/main.rs:49 | a carriage return before the newline stays in the second name: `a-b` CR LF registers (`a`, `b` CR) |
| App.ParseHiddenEdge | src/main.rs:51 | a line `a-b-c` registers the hidden edge (a, b), whatever `c` holds |
| App.ParseMalformedLine | src/main.rs:52 | a non-empty line with a dash count other than one or two makes the whole parse fail, wherever the line stands |
| App.ParseLinesAppend | src/main.rs:47-55 | parsing two sequences of lines one after the other concatenates their registrations, or gives the first failure |
| App.ParseLinesFailsIff | src/main.rs:47-55 | parsing a sequence of lines fails exactly when one of the lines is malformed |
| App.ParseFailsIff | src/main.rs:47-55 | the parse fails exactly when some line is malformed, and then with the `panic!` message |
| App.ParseLinesOrder | src/main.rs:47-55 | after a successful parse, the i-th registration comes from the i-th non-empty line |
| App.ParseOrder | src/main.rs:47-55 | a successful parse registers one edge per non-empty line, the i-th registration from the i-th non-empty line |
| App.VisibleEdges | src/main.rs:16-18 | the edges kept are all visible, and every visible edge is kept as many times as it occurs in the edge list (as a multiset) |
| App.EdgeLines | src/main.rs:15-28 | the only failure of the edge loop is the `unwrap` message; on success it gives one line per visible edge |
| App.NodeDrawings | src/main.rs:30-33 | one drawing per key of the enumeration |
| App.GraphDrawing | src/main.rs:12-36 | `draw_graph` fails exactly when some visible edge names a node that is not in the map, and then with the `unwrap` message |
| App.DrawGraph | src/main.rs:12-36 | the output is the lines of the visible edges in edge order, then the node drawings in the map's iteration order; a visible edge with a missing endpoint fails with the `unwrap` message |
| App.EdgeLinesAt | src/main.rs:15-28 | one step of the edge loop: hidden edges are passed over, a visible edge with a missing endpoint fails, other visible edges add their line |
| App.EdgeLoopStep | src/main.rs:15-28 | the edge loop's output so far grows as that step says |
| App.NodeDrawingsStep | src/main.rs:30-33 | the node loop's output grows by the drawing of the next node |
| App.EdgeLinesAppend | src/main.rs:15-28 | the lines of two edge lists drawn in turn are the lines of the first followed by those of the second |
| App.HiddenEdgesIgnored | src/main.rs:16-18 | hidden edges contribute nothing and are never looked up: drawing only the visible edges gives the same result |
| App.EdgeLinesSucceedIff | src/main.rs:16-21 | the edge loop succeeds exactly when both endpoints of every visible edge are nodes; hidden edges may name missing nodes |
| App.EdgeLinesShape | src/main.rs:15-28 | one line per visible edge, the i-th visible edge giving the i-th line, from the positions of its two endpoints |
| App.NodeDrawingsAppend | src/main.rs:30-33 | the node drawings of two key lists are those of the first followed by those of the second |
| App.NodeDrawingsSnoc | src/main.rs:30-33 | one more key adds that node's drawing at the end |
| App.NodeDrawingsRemove | src/main.rs:30-33 | taking one key out of the list takes exactly that node's drawing out of the multiset of drawings |
| App.DistinctMultiset | src/main.rs:30 | a duplicate-free key list holds each of its keys exactly once |
| App.DrawingsPermute | src/main.rs:30-33 | two key lists that are permutations of each other give the same drawings as a multiset |
| App.NodeOrderIrrelevant | src/main.rs:30-33 | any two iteration orders of the node map give the same node drawings, up to order |
| App.NodeDrawingsShape | src/main.rs:30-33 | one drawing per node, the i-th key's node giving the i-th drawing; hidden nodes give the empty string |

## Left out

- File and argument handling (`env::args`, `File::open`, `read_to_string`,
  `File::create`, `write`): these are I/O, not logic.
- The assembly of the output document in `main` (`start`, the drawing, the
  frame box, `end`): outside the modelled core; it only concatenates
  modelled parts.
- The stderr warning printed from `is_fully_connected`'s result: it is I/O,
  and `is_fully_connected` is not part of this model.
- `register_edge`, `iterate`, `normalize` and `is_fully_connected`: their
  definitions are not part of this model. App.ParseInput returns the
  sequence of `register_edge` arguments in call order instead of calling
  it on a mutable graph.
- The force-directed layout is floating-point physics and is not part of this model.
- The PCG32 generator's internals: Graphs.Rng records only the seed it was
  created from.
- Svg.Start, Svg.DrawLine, Svg.DrawBox, Svg.DrawLabel: number printing is
  the parameter `show`, so the exact `f32` text (for example how 0.05 or a
  negative height is printed) is not modelled.
- Svg.RowHeight: y advances by exact real addition; `f32` rounding
  in `y += font_size` is not modelled.
- App.DrawGraph: `HashMap` iteration order is unspecified, so it is the
  parameter `order`, any duplicate-free list of the map's keys. The node part
  is proved the same for every order as a multiset only.
- App.DrawGraph: the call in `draw_graph` passes two arguments to
  `draw_line`, which takes three; the line colour is a parameter.
- Graphs.Graph: graph.rs declares its own `Node` without `color`,
  `visible` or `draw`, while draw_graph uses node.rs's; the model uses the
  node.rs `Node` for the map.
- The `vector` module: `Vector` is a plain pair of reals.
- App.ParseInput, App.DrawGraph: a `panic!` or failed `unwrap` stops the
  process; the model returns an error result with the same message instead.
- Nodes.DrawIgnoresColor: holds by the definition alone, with no further
  proof.
- Text.SplitJoin, Text.SplitCount, Text.SplitAround: stated for separators
  that cannot overlap themselves; `split` is not characterised for
  separators such as `aa`, which the program never uses.
