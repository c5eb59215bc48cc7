/** The SVG string serialisers of svg.rs. Numbers are the source's `f32`
    values taken as reals; how a number is printed (Rust's `Display` for
    `f32`) is the formatter `show`, the same fixed function in every call. */
module Svg {
  import opened Text

  type Formatter = real -> string

  /** A point or displacement in the plane. */
  datatype Vector = Vector(x: real, y: real)

  /** The literal separator `draw_label_multiline` splits on: a backslash
      followed by the letter n (two characters, not a newline). */
  const LineBreak: string := "\\n"

  const SvgNamespace: string := "http://www.w3.org/2000/svg"

  /** Two coordinates printed with `sep` between them. */
  function Coordinates(show: Formatter, v: Vector, sep: string): string
  {
    show(v.x) + sep + show(v.y)
  }

  /** `move_to`: an absolute move command whose coordinates are separated by a
      comma, followed by one space so that another command can follow. */
  function MoveTo(show: Formatter, v: Vector): (r: string)
    ensures r == "M" + Coordinates(show, v, ",") + " "
  {
    "M" + show(v.x) + "," + show(v.y) + " "
  }

  /** `line_to`: an absolute line command whose coordinates are separated by a
      comma and a space, with no trailing space (unlike `move_to`). */
  function LineTo(show: Formatter, v: Vector): (r: string)
    ensures r == "L" + Coordinates(show, v, ", ")
  {
    "L" + show(v.x) + ", " + show(v.y)
  }

  /** `start`: the opening `svg` tag; its viewBox value is x, y, width and
      height in that order, joined by single spaces. */
  function Start(show: Formatter, x: real, y: real, width: real, height: real): (r: string)
    ensures r == "<svg viewBox=\"" + Join([show(x), show(y), show(width), show(height)], " ")
                 + "\" xmlns=\"" + SvgNamespace + "\">"
  {
    JoinFour(show(x), show(y), show(width), show(height), " ");
    "<svg viewBox=\"" + show(x) + " " + show(y) + " " + show(width) + " " + show(height)
      + "\" xmlns=\"" + SvgNamespace + "\">"
  }

  /** When no printed number holds a space, the viewBox value splits back
      into the four numbers, in the order x, y, width, height. */
  lemma StartViewBox(show: Formatter, x: real, y: real, width: real, height: real)
    requires ' ' !in show(x) && ' ' !in show(y) && ' ' !in show(width) && ' ' !in show(height)
    ensures var fields := [show(x), show(y), show(width), show(height)];
            Split(Join(fields, " "), " ") == fields
  {
    var fields := [show(x), show(y), show(width), show(height)];
    assert " " == [' '];
    forall i | 0 <= i < |fields| ensures Occurrences(fields[i], " ") == 0 {
      OccurrencesChar(fields[i], ' ');
    }
    SplitJoin(fields, " ");
  }

  /** `end`: always exactly the closing `svg` tag. */
  function End(): (r: string)
    ensures r == "</svg>"
  {
    "</svg>"
  }

  /** The style attribute of every line: stroked with `color` at the fixed
      width 0.004. */
  function LineStyle(color: string): string
  {
    "style=\"stroke:" + color + ";stroke-width:0.004\""
  }

  /** `draw_line`: an empty `line` element whose first end point is `start`
      and whose second is `end`, followed by the fixed line style. */
  function DrawLine(show: Formatter, start: Vector, end: Vector, color: string): (r: string)
    ensures r == "<line x1=\"" + show(start.x) + "\" y1=\"" + show(start.y) + "\" x2=\""
                 + show(end.x) + "\" y2=\"" + show(end.y) + "\" " + LineStyle(color) + " />"
  {
    "<line x1=\"" + show(start.x) + "\" y1=\"" + show(start.y) + "\" x2=\"" + show(end.x)
      + "\" y2=\"" + show(end.y) + "\" " + "style=\"stroke:" + color + ";stroke-width:0.004\""
      + " />"
  }

  /** Path data of the box outline: the `move_to` command to the corner
      (x, y), then relative lines down by `height`, right by `width` and up by
      `height` (a minus sign written in front of the printed height), then
      `z`, which closes the outline back at (x, y). */
  function BoxPath(show: Formatter, x: real, y: real, width: real, height: real): (r: string)
    ensures r == MoveTo(show, Vector(x, y)) + "l0," + show(height) + " l" + show(width)
                 + ",0 l0,-" + show(height) + " z"
  {
    "M" + show(x) + "," + show(y) + " " + "l0," + show(height) + " l" + show(width) + ",0 l0,-"
      + show(height) + " z"
  }

  /** `draw_box`: an unfilled `path` element whose path data is the box
      outline, stroked with `color` at width `stroke`. */
  function DrawBox(show: Formatter, x: real, y: real, width: real, height: real,
                   stroke: real, color: string): (r: string)
    ensures r == "<path d=\"" + BoxPath(show, x, y, width, height) + "\" fill=\"none\" stroke=\""
                 + color + "\" stroke-width=\"" + show(stroke) + "\"/>"
  {
    "<path d=\"" + "M" + show(x) + "," + show(y) + " " + "l0," + show(height) + " l" + show(width)
      + ",0 l0,-" + show(height) + " z" + "\" fill=\"none\" stroke=\"" + color + "\" stroke-width=\""
      + show(stroke) + "\"/>"
  }

  /** The opening tag of every label element: position, `middle` anchor,
      font size and fill colour. */
  function LabelOpenTag(show: Formatter, x: real, y: real, fontSize: real,
                        fontColor: string): string
  {
    "<text x=\"" + show(x) + "\" y=\"" + show(y) + "\" text-anchor=\"middle\" font-size=\""
      + show(fontSize) + "\" fill=\"" + fontColor + "\">"
  }

  /** `draw_label`: a centred `text` element at (x, y) whose content is the
      given text exactly as it is, with no XML escaping; the tag around it
      does not depend on the text. */
  function DrawLabel(show: Formatter, x: real, y: real, fontSize: real, fontColor: string,
                     text: string): (r: string)
    ensures r == LabelOpenTag(show, x, y, fontSize, fontColor) + text + "</text>"
  {
    "<text x=\"" + show(x) + "\" y=\"" + show(y) + "\" text-anchor=\"middle\" font-size=\""
      + show(fontSize) + "\" fill=\"" + fontColor + "\">" + text + "</text>"
  }

  /** The `text` element `draw_box_with_label` puts at the box corner: unlike
      a label element, it has no `text-anchor`. */
  function CornerText(show: Formatter, x: real, y: real, fontSize: real, fontColor: string,
                      text: string): string
  {
    "<text x=\"" + show(x) + "\" y=\"" + show(y) + "\" font-size=\"" + show(fontSize)
      + "\" fill=\"" + fontColor + "\">" + text + "</text>"
  }

  /** `draw_box_with_label`: exactly the `draw_box` output, one space, then
      the corner text element. */
  function DrawBoxWithLabel(show: Formatter, x: real, y: real, width: real, height: real,
                            stroke: real, fontSize: real, color: string, fontColor: string,
                            text: string): (r: string)
    ensures r == DrawBox(show, x, y, width, height, stroke, color) + " "
                 + CornerText(show, x, y, fontSize, fontColor, text)
  {
    "<path d=\"" + "M" + show(x) + "," + show(y) + " " + "l0," + show(height) + " l" + show(width)
      + ",0 l0,-" + show(height) + " z" + "\" fill=\"none\" stroke=\"" + color + "\" stroke-width=\""
      + show(stroke) + "\"/>" + " " + "<text x=\"" + show(x) + "\" y=\"" + show(y)
      + "\" font-size=\"" + show(fontSize) + "\" fill=\"" + fontColor + "\">" + text + "</text>"
  }

  // ---------------------------------------------------------------------
  // draw_label_multiline

  /** The height of row `i`: `y` advanced `i` times by `fontSize`, the way
      `draw_label_multiline` advances it after each element; row `i` sits
      exactly `i` font sizes below the first row. */
  function RowHeight(y: real, fontSize: real, i: nat): (r: real)
    ensures r == y + (i as real) * fontSize
  {
    if i == 0 then y
    else
      assert ((i - 1) as real) * fontSize + fontSize == (i as real) * fontSize;
      RowHeight(y, fontSize, i - 1) + fontSize
  }

  /** One label element per segment: element `i` holds segment `i` exactly
      `i` font sizes below `y`; x, font size, colour and anchor are the same
      on all. */
  function LabelElements(show: Formatter, x: real, y: real, fontSize: real, fontColor: string,
                         segments: seq<string>): (r: seq<string>)
    ensures |r| == |segments|
    ensures forall i {:trigger r[i]} :: 0 <= i < |segments| ==>
              r[i] == DrawLabel(show, x, y + (i as real) * fontSize, fontSize, fontColor, segments[i])
  {
    seq(|segments|, i requires 0 <= i < |segments| =>
      DrawLabel(show, x, RowHeight(y, fontSize, i), fontSize, fontColor, segments[i]))
  }

  /** What `draw_label_multiline` returns. */
  function MultilineLabel(show: Formatter, x: real, y: real, fontSize: real, fontColor: string,
                          text: string): (r: string)
    ensures LabelOpenTag(show, x, y, fontSize, fontColor) <= r
  {
    var elements := LabelElements(show, x, y, fontSize, fontColor, Split(text, LineBreak));
    assert elements[0] == LabelOpenTag(show, x, y, fontSize, fontColor) + Split(text, LineBreak)[0] + "</text>";
    assert Concat(elements) == elements[0] + Concat(elements[1..]);
    Concat(elements)
  }

  /** `draw_label_multiline`: for each backslash-n separated segment of the
      label, in order, append a label element at the current `y`, then move
      `y` down by `fontSize`. */
  method DrawLabelMultiline(show: Formatter, x: real, y: real, fontSize: real, fontColor: string,
                            text: string) returns (svg: string)
    ensures svg == MultilineLabel(show, x, y, fontSize, fontColor, text)
  {
    var segments := Split(text, LineBreak);
    var cy := y;
    svg := "";
    var i := 0;
    while i < |segments|
      invariant 0 <= i <= |segments|
      invariant cy == RowHeight(y, fontSize, i)
      invariant svg == Concat(LabelElements(show, x, y, fontSize, fontColor, segments[..i]))
    {
      var line := DrawLabel(show, x, cy, fontSize, fontColor, segments[i]);
      MultilineStep(show, x, y, fontSize, fontColor, segments, i);
      svg := svg + line;
      cy := cy + fontSize;
      i := i + 1;
    }
    assert segments[..i] == segments;
  }

  /** One turn of the `draw_label_multiline` loop: the output so far grows by
      the element of segment `i` at row height `i`. */
  lemma MultilineStep(show: Formatter, x: real, y: real, fontSize: real, fontColor: string,
                      segments: seq<string>, i: nat)
    requires i < |segments|
    ensures Concat(LabelElements(show, x, y, fontSize, fontColor, segments[..i + 1]))
         == Concat(LabelElements(show, x, y, fontSize, fontColor, segments[..i]))
            + DrawLabel(show, x, RowHeight(y, fontSize, i), fontSize, fontColor, segments[i])
  {
    var line := DrawLabel(show, x, RowHeight(y, fontSize, i), fontSize, fontColor, segments[i]);
    var done := LabelElements(show, x, y, fontSize, fontColor, segments[..i]);
    assert LabelElements(show, x, y, fontSize, fontColor, segments[..i + 1]) == done + [line];
    ConcatSnoc(done, line);
  }

  lemma LineBreakBorderFree()
    ensures BorderFree(LineBreak)
  {
    assert LineBreak == ['\\', 'n'];
    assert LineBreak[1..][0] != LineBreak[..1][0];
  }

  /** The layout of a multi-line label: one element per segment, as many as
      there are backslash-n separators plus one; the segments are separator
      free and, joined with the separator, give back the label; element `i`
      holds segment `i` exactly `i` font sizes below `y`, with x, font size,
      colour and anchor unchanged. */
  lemma MultilineLayout(show: Formatter, x: real, y: real, fontSize: real, fontColor: string,
                        text: string)
    ensures var segments := Split(text, LineBreak);
            var elements := LabelElements(show, x, y, fontSize, fontColor, segments);
            && MultilineLabel(show, x, y, fontSize, fontColor, text) == Concat(elements)
            && |elements| == |segments| == Occurrences(text, LineBreak) + 1
            && Join(segments, LineBreak) == text
            && forall i :: 0 <= i < |segments| ==>
                 && Occurrences(segments[i], LineBreak) == 0
                 && elements[i] == DrawLabel(show, x, y + (i as real) * fontSize, fontSize,
                                             fontColor, segments[i])
  {
    var segments := Split(text, LineBreak);
    LineBreakBorderFree();
    SplitCount(text, LineBreak);
    JoinSplit(text, LineBreak);
    SplitPiecesFree(text, LineBreak);
  }

  /** A label with no backslash-n separator (the empty label included) renders
      exactly as `draw_label` renders it. */
  lemma MultilineSingle(show: Formatter, x: real, y: real, fontSize: real, fontColor: string,
                        text: string)
    requires Occurrences(text, LineBreak) == 0
    ensures MultilineLabel(show, x, y, fontSize, fontColor, text)
         == DrawLabel(show, x, y, fontSize, fontColor, text)
  {
    SplitFree(text, LineBreak);
    var e := DrawLabel(show, x, y, fontSize, fontColor, text);
    assert LabelElements(show, x, y, fontSize, fontColor, [text]) == [e];
    assert Concat([e]) == e + Concat([]);
  }

  /** The empty label renders as one element with empty content. */
  lemma MultilineEmpty(show: Formatter, x: real, y: real, fontSize: real, fontColor: string)
    ensures MultilineLabel(show, x, y, fontSize, fontColor, "")
         == LabelOpenTag(show, x, y, fontSize, fontColor) + "</text>"
  {
    MultilineSingle(show, x, y, fontSize, fontColor, "");
  }

  /** A real newline character is not a separator: "a" newline "b" is one
      element holding the newline. */
  lemma MultilineKeepsNewline(show: Formatter, x: real, y: real, fontSize: real, fontColor: string)
    ensures MultilineLabel(show, x, y, fontSize, fontColor, "a\nb")
         == DrawLabel(show, x, y, fontSize, fontColor, "a\nb")
  {
    assert Occurrences("a\nb", LineBreak) == 0 by {
      assert LineBreak[0] == '\\';
      assert "a\nb"[..2][0] != LineBreak[0];
      assert "a\nb"[1..][..2][0] != LineBreak[0];
    }
    MultilineSingle(show, x, y, fontSize, fontColor, "a\nb");
  }
}
