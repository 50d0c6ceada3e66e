/** What the extractor and the layout engine guarantee together: every
    model the parser produces is drawn in full. */
module Pipeline {
  import opened Seqs
  import opened Model
  import Parser
  import Renderer

  /** The two facts about a parse result the drawing depends on. */
  lemma ParsedDrawable(text: string)
    ensures var g := Parser.Extracted(text);
      (forall k :: 0 <= k < |g.nodes| ==> g.nodes[k].kind != "package") &&
      (forall k :: 0 <= k < |g.relations| ==> g.relations[k].source in Names(g.nodes) && g.relations[k].target in Names(g.nodes))
  {
    var g := Parser.Extracted(text);
    Parser.ExtractedShape(text);
    assert forall k :: 0 <= k < |g.relations| ==> g.relations[k] in g.relations;
  }

  /** A parsed graph is drawn as a diagram exactly when it has an element,
      and then with one card per element and one edge per relation: the
      parser adds no element of kind "package" and resolves every relation
      endpoint to an element. */
  lemma ParsedDrawnInFull(text: string, sourcePath: string, title: string, inline: bool)
    ensures var g := Parser.Extracted(text);
      var svg := Renderer.SvgOf(Renderer.Document(g.packages, g.nodes, g.relations, sourcePath), title, inline);
      (svg.body.Diagram? <==> g.nodes != []) &&
      (g.nodes != [] ==> |svg.body.cards| == |g.nodes| && |svg.body.edges| == |g.relations|)
  {
    var g := Parser.Extracted(text);
    var doc := Renderer.Document(g.packages, g.nodes, g.relations, sourcePath);
    ParsedDrawable(text);
    Renderer.DrawableAll(g.nodes);
    Renderer.SvgKind(doc, title, inline);
    if g.nodes != [] {
      assert g.nodes[0].kind != "package";
      Renderer.DiagramCards(doc, title, inline);
      Renderer.DiagramEdges(doc, title, inline);
    }
  }
}
