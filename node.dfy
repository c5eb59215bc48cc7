/** The node of node.rs and its drawing. */
module Nodes {
  import opened Text
  import opened Svg

  /** A graph node: its position, its name (the label text), a colour, the
      connectivity scan's `visited` flag and whether it is drawn. */
  datatype Node = Node(x: real, y: real, name: string, color: string, visited: bool,
                       visible: bool)

  /** The font size `Node::draw` labels a node with. */
  const LabelFontSize: real := 0.05

  /** The colour `Node::draw` labels a node with, whatever the node's own colour. */
  const LabelColor: string := "black"

  /** `Node::draw`: nothing for a hidden node; for a visible one, its name as
      a multi-line label centred on its position, followed by one newline.
      Drawing reads the node and changes nothing. */
  function Draw(show: Formatter, n: Node): (r: string)
    ensures r == "" <==> !n.visible
    ensures n.visible ==> |r| > 0 && r[|r| - 1] == '\n'
  {
    if !n.visible then ""
    else MultilineLabel(show, n.x, n.y, LabelFontSize, LabelColor, n.name) + "\n"
  }

  /** A visible node draws one black label element per backslash-n separated
      part of its name, in order, the first at the node's position and each
      further one 0.05 lower, followed by one newline. */
  lemma DrawVisible(show: Formatter, n: Node)
    requires n.visible
    ensures var parts := Split(n.name, LineBreak);
            var elements := LabelElements(show, n.x, n.y, LabelFontSize, LabelColor, parts);
            && Draw(show, n) == Concat(elements) + "\n"
            && |elements| == |parts| == Occurrences(n.name, LineBreak) + 1
            && Join(parts, LineBreak) == n.name
            && forall i :: 0 <= i < |parts| ==>
                 elements[i] == DrawLabel(show, n.x, n.y + (i as real) * LabelFontSize,
                                          LabelFontSize, LabelColor, parts[i])
  {
    MultilineLayout(show, n.x, n.y, LabelFontSize, LabelColor, n.name);
  }

  /** A node whose name has no backslash-n draws exactly one label element. */
  lemma DrawSingleLine(show: Formatter, n: Node)
    requires n.visible && Occurrences(n.name, LineBreak) == 0
    ensures Draw(show, n) == DrawLabel(show, n.x, n.y, 0.05, "black", n.name) + "\n"
  {
    MultilineSingle(show, n.x, n.y, LabelFontSize, LabelColor, n.name);
  }

  /** The drawing depends on neither the node's colour nor its visited flag. */
  lemma DrawIgnoresColor(show: Formatter, n: Node, color: string, visited: bool)
    ensures Draw(show, n.(color := color, visited := visited)) == Draw(show, n)
  {
  }
}
