/**
 * Which fields the mouse-over tooltip shows for a node, by depth
 * (assets/js/taxonomy.js:129-148): the root shows its name, a band node its
 * name and raw definition, and a deeper node its name followed by whichever
 * of definition, conceptual instances and highlighted example it has.
 */
module Tooltip {
  import opened Wrappers
  import opened Hierarchy
  import Highlight

  datatype Section =
    | Name(text: string)
    | RawDefinition(text: string)
    | Definition(text: string)
    | Conceptual(text: string)
    | Example(html: string)

  /** `s || ""`: the text when it is truthy, otherwise the empty string. */
  function OrEmpty(s: Option<string>): (r: string)
    ensures Truthy(s) ==> r == s.value
    ensures r == "" <==> !Truthy(s)
  {
    if Truthy(s) then s.value else ""
  }

  /** The optional part with the given section when the field is truthy. */
  function When(field: Option<string>, section: Section): seq<Section>
  {
    if Truthy(field) then [section] else []
  }

  /** The example sentence with its entity highlighted, as `highlightSpan` returns it. */
  function ExampleHtml(h: Tree, n: nat): string
    requires WellFormed(h) && n < |h.nodes|
  {
    var r := h.nodes[n].data;
    Highlight.Marked(OrEmpty(r.example), r.highlightSpan, Highlight.HighlightColor(h, n))
  }

  /** The sections written for a record at the given depth, given the highlighted example. */
  function SectionsOf(r: Record, depth: nat, exampleHtml: string): seq<Section>
  {
    if depth == 1 then [Name(r.name), RawDefinition(OrEmpty(r.definition))]
    else if depth > 1 then
      [Name(r.name)]
        + When(r.definition, Definition(OrEmpty(r.definition)))
        + When(r.conceptual, Conceptual(OrEmpty(r.conceptual)))
        + When(r.example, Example(exampleHtml))
    else [Name(r.name)]
  }

  /** The sections of the tooltip of node `n`, in the order they are written. */
  function Sections(h: Tree, n: nat): seq<Section>
    requires WellFormed(h) && n < |h.nodes|
  {
    SectionsOf(h.nodes[n].data, h.nodes[n].depth, ExampleHtml(h, n))
  }

  function Count(b: bool): nat
  {
    if b then 1 else 0
  }

  /**
   * Every tooltip opens with the node's name. The root shows nothing else; a
   * band node always shows its definition, empty or not; a deeper node shows
   * each of the three optional sections exactly when its field is truthy,
   * the example last.
   */
  lemma SectionsOfByDepth(r: Record, depth: nat, html: string)
    ensures var s := SectionsOf(r, depth, html);
      && |s| >= 1 && s[0] == Name(r.name)
      && (depth == 0 ==> s == [Name(r.name)])
      && (depth == 1 ==> s == [Name(r.name), RawDefinition(OrEmpty(r.definition))])
    ensures var s := SectionsOf(r, depth, html);
      depth > 1 ==>
        && |s| == 1 + Count(Truthy(r.definition)) + Count(Truthy(r.conceptual)) + Count(Truthy(r.example))
        && (forall i :: 1 <= i < |s| ==> !s[i].Name? && !s[i].RawDefinition?)
        && (Definition(OrEmpty(r.definition)) in s <==> Truthy(r.definition))
        && (Conceptual(OrEmpty(r.conceptual)) in s <==> Truthy(r.conceptual))
        && (Truthy(r.example) <==> s[|s| - 1].Example?)
        && (Truthy(r.example) ==> s[|s| - 1] == Example(html))
  {
    var s := SectionsOf(r, depth, html);
    if depth > 1 {
      var d := When(r.definition, Definition(OrEmpty(r.definition)));
      var c := When(r.conceptual, Conceptual(OrEmpty(r.conceptual)));
      var e := When(r.example, Example(html));
      assert s == [Name(r.name)] + d + c + e;
      assert Definition(OrEmpty(r.definition)) in s ==> Definition(OrEmpty(r.definition)) in d;
      assert Conceptual(OrEmpty(r.conceptual)) in s ==> Conceptual(OrEmpty(r.conceptual)) in c;
    }
  }

  /**
   * The same for a node of the tree, whose example section carries
   * `highlightSpan`'s output for the node's own example, span and colour.
   */
  lemma SectionsByDepth(h: Tree, n: nat)
    requires WellFormed(h) && n < |h.nodes|
    ensures var s, r, depth := Sections(h, n), h.nodes[n].data, h.nodes[n].depth;
      && |s| >= 1 && s[0] == Name(r.name)
      && (depth == 0 ==> s == [Name(r.name)])
      && (depth == 1 ==> s == [Name(r.name), RawDefinition(OrEmpty(r.definition))])
    ensures var s, r := Sections(h, n), h.nodes[n].data;
      h.nodes[n].depth > 1 ==>
        && |s| == 1 + Count(Truthy(r.definition)) + Count(Truthy(r.conceptual)) + Count(Truthy(r.example))
        && (forall i :: 1 <= i < |s| ==> !s[i].Name? && !s[i].RawDefinition?)
        && (Definition(OrEmpty(r.definition)) in s <==> Truthy(r.definition))
        && (Conceptual(OrEmpty(r.conceptual)) in s <==> Truthy(r.conceptual))
        && (Truthy(r.example) <==> s[|s| - 1].Example?)
        && (Truthy(r.example) ==> s[|s| - 1] == Example(ExampleHtml(h, n)))
  {
    SectionsOfByDepth(h.nodes[n].data, h.nodes[n].depth, ExampleHtml(h, n));
  }

  /**
   * The example section of a deeper node, for a span in range, is the
   * sentence with `text[start..end)` wrapped in the marker.
   */
  lemma ExampleMarksSpan(h: Tree, n: nat, start: int, end: int)
    requires WellFormed(h) && n < |h.nodes|
    requires Truthy(h.nodes[n].data.example) && h.nodes[n].data.highlightSpan == Some([start, end])
    requires 0 <= start <= end <= |h.nodes[n].data.example.value|
    ensures var text, color := h.nodes[n].data.example.value, Highlight.HighlightColor(h, n);
      ExampleHtml(h, n) == text[..start] + Highlight.MarkerOpen(color) + text[start..end] + Highlight.MarkerClose + text[end..]
  {
    Highlight.MarkedInRange(h.nodes[n].data.example.value, start, end, Highlight.HighlightColor(h, n));
  }
}
