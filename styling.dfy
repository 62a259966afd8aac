/**
 * How a node is drawn: the circle's fill and stroke by depth and by the role
 * of its depth-1 ancestor (assets/js/taxonomy.js:156-179, repeated identically
 * at 197-217), and which side of the circle its label sits on (lines 184-185).
 */
module Styling {
  import opened Wrappers
  import opened Colors
  import opened Hierarchy
  import opened Folding
  import Highlight

  /** `Math.round(2.55 * 50)` evaluated in IEEE doubles. */
  const ChildLighten: int := 127

  /** The neutral colour used when the band has no known role. */
  const Neutral: string := "#999"

  /** The colour of a top-level band (depth-1 node): `roleColors[d.data.role] || "#999"`. */
  function BandColor(h: Tree, a: nat): string
    requires a < |h.nodes|
  {
    PaletteOr(h.nodes[a].data.role, Neutral)
  }

  /** The fill rule. */
  function Fill(h: Tree, n: nat): string
    requires WellFormed(h) && n < |h.nodes|
  {
    var depth := h.nodes[n].depth;
    if depth == 1 then BandColor(h, n)
    else if depth > 1 then LightenColor(BandColor(h, DepthOneAncestor(h, n)), ChildLighten)
    else "#fff"
  }

  /** The stroke rule. */
  function Stroke(h: Tree, n: nat): string
    requires WellFormed(h) && n < |h.nodes|
  {
    var depth := h.nodes[n].depth;
    if depth == 1 then BandColor(h, n)
    else if depth > 1 then BandColor(h, DepthOneAncestor(h, n))
    else Neutral
  }

  /** `let ancestor = d; while (ancestor.depth > 1) ancestor = ancestor.parent;` */
  method FindDepthOneAncestor(h: Tree, n: nat) returns (a: nat)
    requires WellFormed(h) && n < |h.nodes| && h.nodes[n].depth >= 1
    ensures a == DepthOneAncestor(h, n)
  {
    a := n;
    while h.nodes[a].depth > 1
      invariant a < |h.nodes| && h.nodes[a].depth >= 1
      invariant DepthOneAncestor(h, a) == DepthOneAncestor(h, n)
      decreases h.nodes[a].depth
    {
      DepthZeroIsRoot(h, a);
      assert ParentOk(h, a);
      a := h.nodes[a].parent.value;
    }
  }

  /** The `fill` attribute callback. */
  method FillOf(h: Tree, n: nat) returns (c: string)
    requires WellFormed(h) && n < |h.nodes|
    ensures c == Fill(h, n)
  {
    var depth := h.nodes[n].depth;
    if depth == 1 {
      c := PaletteOr(h.nodes[n].data.role, Neutral);
    } else if depth > 1 {
      var ancestor := FindDepthOneAncestor(h, n);
      var baseColor := PaletteOr(h.nodes[ancestor].data.role, Neutral);
      c := LightenColor(baseColor, ChildLighten);
    } else {
      c := "#fff";
    }
  }

  /** The `stroke` attribute callback. */
  method StrokeOf(h: Tree, n: nat) returns (c: string)
    requires WellFormed(h) && n < |h.nodes|
    ensures c == Stroke(h, n)
  {
    var depth := h.nodes[n].depth;
    if depth == 1 {
      c := PaletteOr(h.nodes[n].data.role, Neutral);
    } else if depth > 1 {
      var ancestor := FindDepthOneAncestor(h, n);
      c := PaletteOr(h.nodes[ancestor].data.role, Neutral);
    } else {
      c := Neutral;
    }
  }

  /**
   * The colours are fixed by depth: the root is white with a grey rim, a band
   * node shows its own colour on both, and every deeper node wears its band's
   * colour as stroke and a lightened copy of it as fill.
   */
  lemma FillStrokeByDepth(h: Tree, n: nat)
    requires WellFormed(h) && n < |h.nodes|
    ensures h.nodes[n].depth == 0 ==> Fill(h, n) == "#fff" && Stroke(h, n) == "#999"
    ensures h.nodes[n].depth == 1 ==> Fill(h, n) == Stroke(h, n) == PaletteOr(h.nodes[n].data.role, "#999")
    ensures h.nodes[n].depth > 1 ==> Stroke(h, n) == Stroke(h, DepthOneAncestor(h, n))
    ensures h.nodes[n].depth > 1 ==> Fill(h, n) == LightenColor(Stroke(h, n), ChildLighten)
  {
    if h.nodes[n].depth > 1 {
      var a := DepthOneAncestor(h, n);
      assert DepthOneAncestor(h, a) == a;
    }
  }

  /** Below the bands the stroke and fill are inherited unchanged from the parent. */
  lemma ColorsInherited(h: Tree, n: nat)
    requires WellFormed(h) && n < |h.nodes| && h.nodes[n].depth > 2
    ensures Stroke(h, n) == Stroke(h, Parent(h, n))
    ensures Fill(h, n) == Fill(h, Parent(h, n))
  {
    DepthZeroIsRoot(h, n);
  }

  /** A stroke is always one of the three palette colours or the neutral grey. */
  lemma StrokeIsPaletteOrNeutral(h: Tree, n: nat)
    requires WellFormed(h) && n < |h.nodes|
    ensures Stroke(h, n) in {"#1f77b4", "#d62728", "#2ca02c", "#999"}
  {
  }

  /** Under a protagonist band every deeper node has the blue rim and a light cyan fill. */
  lemma ProtagonistChildFill(h: Tree, n: nat)
    requires WellFormed(h) && n < |h.nodes| && h.nodes[n].depth > 1
    requires h.nodes[DepthOneAncestor(h, n)].data.role == Some("protagonist")
    ensures Stroke(h, n) == "#1f77b4" && Fill(h, n) == "#9ef6ff"
  {
    FillStrokeByDepth(h, n);
    LightenBlueExample();
  }

  /** Under a band without a known role the child fill is the lightened "#999", a pale violet. */
  lemma NeutralChildFill(h: Tree, n: nat)
    requires WellFormed(h) && n < |h.nodes| && h.nodes[n].depth > 1
    requires Palette(h.nodes[DepthOneAncestor(h, n)].data.role).None?
    ensures Stroke(h, n) == "#999" && Fill(h, n) == "#7f88ff"
  {
    FillStrokeByDepth(h, n);
    LightenFallbackExample();
  }

  // ---------------------------------------------------------------------------
  // The node colour rule and the highlight colour rule are different

  function Leaf(name: string, role: Option<string>, parent: Option<nat>, depth: nat, kids: seq<nat>): Node
  {
    Node(Record(name, role, None, None, None, None), parent, depth, kids)
  }

  /** Root, a protagonist band, and one of its members that has an antagonist role of its own. */
  function MixedRoles(): Tree
  {
    Tree([
      Leaf("Root", None, None, 0, [1]),
      Leaf("Protagonist", Some("protagonist"), Some(0), 1, [2]),
      Leaf("Saboteur", Some("antagonist"), Some(1), 2, [])])
  }

  lemma MixedRolesWellFormed()
    ensures WellFormed(MixedRoles())
  {
    var h := MixedRoles();
    assert ParentOk(h, 1) && ParentOk(h, 2);
    assert KidsOk(h, 0) && KidsOk(h, 1) && KidsOk(h, 2);
  }

  /**
   * The circle takes the band's colour while the highlight in the tooltip
   * takes the node's own role: the two rules disagree on this node.
   */
  lemma ColorRulesDiffer()
    ensures WellFormed(MixedRoles())
    ensures Stroke(MixedRoles(), 2) == "#1f77b4"
    ensures Highlight.HighlightColor(MixedRoles(), 2) == "#d62728"
  {
    MixedRolesWellFormed();
    var h := MixedRoles();
    assert Parent(h, 2) == 1;
    assert DepthOneAncestor(h, 2) == 1;
  }

  // ---------------------------------------------------------------------------
  // Label placement

  datatype Label = Label(dx: int, anchor: string)

  /** `d.children || d._children ? -13 : 13` and `? "end" : "start"`. */
  function LabelSide(f: Fold): Label
  {
    if f.children.Some? || f.hiddenChildren.Some? then Label(-13, "end") else Label(13, "start")
  }

  /**
   * In a settled state the label sits left of the circle exactly for nodes
   * that have children, whether they are shown or not, so toggling never
   * moves it.
   */
  lemma LabelSideOfSettled(h: Tree, n: nat, f: Fold)
    requires n < |h.nodes| && Settled(h, n, f)
    ensures LabelSide(f).anchor == "end" <==> h.nodes[n].kids != []
    ensures LabelSide(f) == (if h.nodes[n].kids != [] then Label(-13, "end") else Label(13, "start"))
    ensures LabelSide(Toggled(f)) == LabelSide(f)
  {
  }
}
