/**
 * The collapsible tree widget of assets/js/taxonomy.js:57-268: the node
 * objects' mutable fields (`children`/`_children`, `id`, `x`, `y`, `x0`, `y0`),
 * the id counter `i`, and the keyed element sets the page holds, changed in
 * place by `collapse`, the click handler and `update`.
 */
module Taxonomy {
  import opened Wrappers
  import opened Hierarchy
  import opened Folding
  import opened Reconcile
  import opened Keys

  /** `height = 600 - margin.top - margin.bottom` (line 62). */
  const Height: int := 560

  /** `d.y = d.depth * 180` (line 104). */
  const LevelSpacing: nat := 180

  datatype Point = Point(x: int, y: int)

  /**
   * What one `update` hands to the transitions: the node and link joins, the
   * point entering elements start from (`source.x0`, `source.y0`) and the
   * point exiting ones move to (`source.x`, `source.y`); None where the
   * source node has no such coordinates.
   */
  datatype Transition = Transition(nodes: Diff<nat>, links: Diff<nat>, enterFrom: Option<Point>, exitTo: Option<Point>)

  /** The nodes of a join order, as a set. */
  function Members(order: seq<nat>): (s: set<nat>)
    ensures forall n :: n in s <==> n in order
  {
    set i | 0 <= i < |order| :: order[i]
  }

  /**
   * `after` is `before` with every node of `order` set to its entry in
   * `values` and every other entry kept.
   */
  ghost predicate Overwritten(before: map<nat, int>, after: map<nat, int>, order: seq<nat>, values: map<nat, int>)
  {
    && (forall n :: n in after <==> n in before || n in order)
    && (forall n :: n in order ==> n in values && after[n] == values[n])
    && (forall n :: n in before && n !in order ==> after[n] == before[n])
  }

  /** `m` after `order.forEach(n => m[n] = values[n])`, for the nodes `values` has. */
  function Assigned(m: map<nat, int>, values: map<nat, int>, order: seq<nat>): map<nat, int>
    decreases |order|
  {
    if order == [] then m
    else
      var n := order[0];
      Assigned(if n in values then m[n := values[n]] else m, values, order[1..])
  }

  /** When `values` covers `order`, the assignment loop overwrites exactly the nodes of `order`. */
  lemma {:induction false} AssignedSpec(m: map<nat, int>, values: map<nat, int>, order: seq<nat>)
    requires forall n :: n in order ==> n in values
    ensures Overwritten(m, Assigned(m, values, order), order, values)
    decreases |order|
  {
    if order != [] {
      var n, rest := order[0], order[1..];
      assert forall k :: k in order <==> k == n || k in rest;
      AssignedSpec(m[n := values[n]], values, rest);
    }
  }

  /** `d.y = d.depth * 180` for every node. */
  function Heights(h: Tree): map<nat, int>
  {
    map n | 0 <= n < |h.nodes| :: h.nodes[n].depth * LevelSpacing
  }

  class TaxonomyTree {
    const tree: Tree
    /** `d.children` and `d._children` of every node. */
    var folds: seq<Fold>
    /** `d.id` of the nodes that have been joined. */
    var id: map<nat, nat>
    /** The counter `i` (line 64). */
    var counter: nat
    var x: map<nat, int>
    var y: map<nat, int>
    var x0: map<nat, int>
    var y0: map<nat, int>
    /** The nodes the last `update` drew. */
    ghost var shown: set<nat>
    /** Keys of the `g.node` elements on the page. */
    var rendered: set<nat>
    /** Keys of the `path.link` elements on the page. */
    var renderedLinks: set<nat>

    /** Every node's fold state has exactly one of its two child lists, or none for a leaf. */
    ghost predicate FoldsOk()
      reads this`folds
    {
      AllSettled(tree, folds)
    }

    /** Numbers given so far are distinct and within the counter. */
    ghost predicate KeysOk()
      reads this`id, this`counter
    {
      IdsBelow(id, counter) && Injective(id)
    }

    /** The elements on the page are the keys of the nodes last drawn and of their links. */
    ghost predicate JoinedOk()
      reads this`id, this`shown, this`rendered, this`renderedLinks
    {
      && shown <= id.Keys
      && rendered == Image(id, shown)
      && renderedLinks == Image(id, shown - {Root})
    }

    ghost predicate Valid()
      reads this`folds, this`id, this`counter, this`shown, this`rendered, this`renderedLinks
    {
      FoldsOk() && KeysOk() && JoinedOk()
    }

    /**
     * Lines 81-86: build the hierarchy state, place the root's previous
     * position at `(height / 2, 0)` and collapse every child of the root.
     * `root.children` is undefined for a childless root and the source throws
     * there, hence the second precondition. The first `update(root)` of line
     * 88 is a separate call of `Update`, whose layout is an input.
     */
    constructor (h: Tree)
      requires WellFormed(h) && h.nodes[Root].kids != []
      ensures tree == h && Valid()
      ensures forall n :: 0 <= n < |h.nodes| ==> folds[n] == Mounted(h, n)
      ensures id == map[] && counter == 0 && x == map[] && y == map[]
      ensures x0 == map[Root := Height / 2] && y0 == map[Root := 0]
      ensures shown == {} && rendered == {} && renderedLinks == {}
    {
      tree := h;
      folds := seq(|h.nodes|, n requires 0 <= n < |h.nodes| => Expanded(h.nodes[n].kids));
      id := map[];
      counter := 0;
      x, y := map[], map[];
      x0, y0 := map[Root := Height / 2], map[Root := 0];
      shown, rendered, renderedLinks := {}, {}, {};
      new;
      ghost var e := folds;
      assert KidsOk(tree, Root);
      CollapseEach(tree.nodes[Root].kids, Root);
      CollapseRootChildren(tree, e, folds);
      forall n | 0 <= n < |tree.nodes| ensures Settled(tree, n, folds[n]) {
        MountedSettled(tree, n);
      }
    }

    /** `collapse(d)` (lines 90-96). */
    method Collapse(d: nat)
      requires Shaped(tree, folds) && d < |tree.nodes|
      modifies this`folds
      ensures Shaped(tree, folds)
      ensures CollapsedFrom(tree, old(folds), folds, [d])
      decreases |tree.nodes| - d, 1
    {
      ghost var f0 := folds;
      if folds[d].children.Some? {
        assert ShapedAt(tree, d, folds[d]) && KidsOk(tree, d);
        folds := folds[d := folds[d].(hiddenChildren := folds[d].children)];
        CollapseEach(folds[d].hiddenChildren.value, d);
        ghost var f2 := folds;
        folds := folds[d := folds[d].(children := None)];
        CollapseShown(tree, f0, d, f2);
      } else {
        CollapseUnshown(tree, f0, d);
      }
      CollapsedShaped(tree, f0, folds, [d]);
    }

    /** `cs.forEach(collapse)` over the child list `cs` of node `p`. */
    method CollapseEach(cs: seq<nat>, ghost p: nat)
      requires Shaped(tree, folds) && p < |tree.nodes| && cs == tree.nodes[p].kids
      modifies this`folds
      ensures Shaped(tree, folds)
      ensures KidsOk(tree, p) && CollapsedFrom(tree, old(folds), folds, cs)
      decreases |tree.nodes| - p, 0
    {
      assert KidsOk(tree, p);
      ghost var f0 := folds;
      var k := 0;
      assert cs[..0] == [];
      while k < |cs|
        invariant 0 <= k <= |cs|
        invariant Shaped(tree, folds)
        invariant CollapsedFrom(tree, f0, folds, cs[..k])
      {
        ghost var f := folds;
        assert cs[k] in tree.nodes[p].kids && ParentOk(tree, cs[k]);
        Collapse(cs[k]);
        CollapseEachStep(tree, f0, f, folds, p, k);
        k := k + 1;
      }
      assert cs[..k] == cs;
    }

    /** The click handler's swap (lines 116-122); `update(d)` follows in `Click`. */
    method Toggle(d: nat)
      requires Valid() && d < |tree.nodes|
      modifies this`folds
      ensures Valid()
      ensures folds == old(folds)[d := Toggled(old(folds)[d])]
    {
      if folds[d].children.Some? {
        folds := folds[d := folds[d].(hiddenChildren := folds[d].children)];
        folds := folds[d := folds[d].(children := None)];
      } else {
        folds := folds[d := folds[d].(children := folds[d].hiddenChildren)];
        folds := folds[d := folds[d].(hiddenChildren := None)];
      }
      assert Settled(tree, d, old(folds)[d]);
      ToggleKeepsSettled(tree, d, old(folds)[d]);
    }

    /** `tree(root)` and `nodes.forEach(d => d.y = d.depth * 180)` (lines 101-104). */
    method Layout(order: seq<nat>, layoutX: map<nat, int>)
      requires forall n :: n in order ==> n < |tree.nodes| && n in layoutX
      modifies this`x, this`y
      ensures x == Assigned(old(x), layoutX, order)
      ensures y == Assigned(old(y), Heights(tree), order)
      ensures forall n :: n in order ==> n in x && n in y
    {
      var k := 0;
      while k < |order|
        invariant 0 <= k <= |order|
        invariant Assigned(x, layoutX, order[k..]) == Assigned(old(x), layoutX, order)
        invariant Assigned(y, Heights(tree), order[k..]) == Assigned(old(y), Heights(tree), order)
      {
        var n := order[k];
        assert order[k..][1..] == order[k + 1..];
        assert n in order;
        x := x[n := layoutX[n]];
        y := y[n := tree.nodes[n].depth * LevelSpacing];
        k := k + 1;
      }
      AssignedSpec(old(x), layoutX, order);
      AssignedSpec(old(y), Heights(tree), order);
    }

    /** The key function `d => d.id || (d.id = ++i)` applied along `order` (line 109). */
    method Number(order: seq<nat>)
      requires KeysOk()
      modifies this`id, this`counter
      ensures (id, counter) == AssignIds(old(id), old(counter), order)
      ensures KeysOk()
      ensures forall n :: n in order ==> n in id
    {
      var k := 0;
      while k < |order|
        invariant 0 <= k <= |order|
        invariant AssignIds(id, counter, order[k..]) == AssignIds(old(id), old(counter), order)
        invariant IdsBelow(id, counter) && Injective(id)
      {
        var n := order[k];
        assert order[k..][1..] == order[k + 1..];
        if n !in id {
          NumberFresh(id, counter, n);
          counter := counter + 1;
          id := id[n := counter];
        }
        k := k + 1;
      }
      assert order[k..] == [];
      AssignIdsSpec(old(id), old(counter), order);
    }

    /**
     * The two data joins of `update`: nodes keyed by `d.id` (line 109) and
     * links keyed by their target's `id` (line 237), one link per drawn node
     * but the root. Returns what enters, stays and exits.
     */
    method Join(order: seq<nat>) returns (nodes: Diff<nat>, links: Diff<nat>)
      requires forall n :: n in order ==> n in id
      modifies this`shown, this`rendered, this`renderedLinks
      ensures JoinedOk()
      ensures shown == Members(order)
      ensures rendered == Image(id, shown) && renderedLinks == Image(id, shown - {Root})
      ensures nodes == Classify(old(rendered), rendered)
      ensures links == Classify(old(renderedLinks), renderedLinks)
    {
      var drawn := Members(order);
      var nodeKeys := Image(id, drawn);
      var linkKeys := Image(id, drawn - {Root});
      nodes := Classify(rendered, nodeKeys);
      links := Classify(renderedLinks, linkKeys);
      rendered, renderedLinks, shown := nodeKeys, linkKeys, drawn;
    }

    /** `nodes.forEach(d => { d.x0 = d.x; d.y0 = d.y; })` (lines 264-267). */
    method SavePositions(order: seq<nat>)
      requires forall n :: n in order ==> n in x && n in y
      modifies this`x0, this`y0
      ensures x0 == Assigned(old(x0), x, order)
      ensures y0 == Assigned(old(y0), y, order)
    {
      var k := 0;
      while k < |order|
        invariant 0 <= k <= |order|
        invariant Assigned(x0, x, order[k..]) == Assigned(old(x0), x, order)
        invariant Assigned(y0, y, order[k..]) == Assigned(old(y0), y, order)
      {
        var n := order[k];
        assert order[k..][1..] == order[k + 1..];
        assert n in order;
        x0 := x0[n := x[n]];
        y0 := y0[n := y[n]];
        k := k + 1;
      }
    }

    /**
     * The position half of `update`: the new layout, the anchors of the
     * entering and exiting elements (`source.x0`/`source.y0` before the save,
     * `source.x`/`source.y` after the layout), and the save of every drawn
     * node's position.
     */
    method Reposition(source: nat, order: seq<nat>, layoutX: map<nat, int>) returns (enterFrom: Option<Point>, exitTo: Option<Point>)
      requires forall n :: n in order ==> n < |tree.nodes| && n in layoutX
      modifies this`x, this`y, this`x0, this`y0
      ensures x == Assigned(old(x), layoutX, order) && y == Assigned(old(y), Heights(tree), order)
      ensures x0 == Assigned(old(x0), x, order) && y0 == Assigned(old(y0), y, order)
      ensures enterFrom == if source in old(x0) && source in old(y0) then Some(Point(old(x0)[source], old(y0)[source])) else None
      ensures exitTo == if source in x && source in y then Some(Point(x[source], y[source])) else None
    {
      Layout(order, layoutX);
      enterFrom := if source in x0 && source in y0 then Some(Point(x0[source], y0[source])) else None;
      exitTo := if source in x && source in y then Some(Point(x[source], y[source])) else None;
      SavePositions(order);
    }

    /** The key half of `update`: number the drawn nodes, then join nodes and links by key. */
    method Rejoin(order: seq<nat>) returns (nodes: Diff<nat>, links: Diff<nat>)
      requires KeysOk() && JoinedOk()
      modifies this`id, this`counter, this`shown, this`rendered, this`renderedLinks
      ensures KeysOk() && JoinedOk()
      ensures (id, counter) == AssignIds(old(id), old(counter), order)
      ensures shown == Members(order)
      ensures rendered == Image(id, shown) && renderedLinks == Image(id, shown - {Root})
      ensures nodes == Classify(old(rendered), rendered)
      ensures links == Classify(old(renderedLinks), renderedLinks)
      ensures forall n :: n in old(id) ==> n in id && id[n] == old(id)[n]
      ensures nodes == Diff(Image(id, shown - old(shown)), Image(id, shown * old(shown)), Image(id, old(shown) - shown))
    {
      ghost var before := shown;
      Number(order);
      AssignIdsSpec(old(id), old(counter), order);
      ImageStable(old(id), id, before);
      nodes, links := Join(order);
      DiffByNode(id, before, shown);
    }

    /**
     * `update(source)` (lines 98-268) given the layout: `order` is
     * `treeData.descendants()`, the visible nodes each once, and `layoutX`
     * the `x` that `tree(root)` gives each of them.
     */
    method Update(source: nat, order: seq<nat>, layoutX: map<nat, int>) returns (t: Transition)
      requires Valid() && source < |tree.nodes|
      requires forall n :: n in order ==> n < |tree.nodes| && n in layoutX
      requires forall i, j :: 0 <= i < j < |order| ==> order[i] != order[j]
      requires Members(order) == VisibleNodes(tree, folds)
      modifies this`id, this`counter, this`x, this`y, this`x0, this`y0
      modifies this`shown, this`rendered, this`renderedLinks
      ensures Valid()
      ensures x == Assigned(old(x), layoutX, order) && y == Assigned(old(y), Heights(tree), order)
      ensures (id, counter) == AssignIds(old(id), old(counter), order)
      ensures shown == Members(order)
      ensures rendered == Image(id, shown) && renderedLinks == Image(id, shown - {Root})
      ensures t.nodes == Classify(old(rendered), rendered)
      ensures t.links == Classify(old(renderedLinks), renderedLinks)
      ensures forall n :: n in old(id) ==> n in id && id[n] == old(id)[n]
      ensures t.nodes == Diff(Image(id, shown - old(shown)), Image(id, shown * old(shown)), Image(id, old(shown) - shown))
      ensures t.enterFrom == if source in old(x0) && source in old(y0) then Some(Point(old(x0)[source], old(y0)[source])) else None
      ensures t.exitTo == if source in x && source in y then Some(Point(x[source], y[source])) else None
      ensures x0 == Assigned(old(x0), x, order) && y0 == Assigned(old(y0), y, order)
    {
      var enterFrom, exitTo := Reposition(source, order, layoutX);
      var nodes, links := Rejoin(order);
      t := Transition(nodes, links, enterFrom, exitTo);
    }

    /** A click on node `d`: the swap, then `update(d)` with the new layout. */
    method Click(d: nat, order: seq<nat>, layoutX: map<nat, int>) returns (t: Transition)
      requires Valid() && d < |tree.nodes|
      requires forall n :: n in order ==> n < |tree.nodes| && n in layoutX
      requires forall i, j :: 0 <= i < j < |order| ==> order[i] != order[j]
      requires Members(order) == VisibleNodes(tree, folds[d := Toggled(folds[d])])
      modifies this`folds, this`id, this`counter, this`x, this`y, this`x0, this`y0
      modifies this`shown, this`rendered, this`renderedLinks
      ensures Valid()
      ensures folds == old(folds)[d := Toggled(old(folds)[d])]
      ensures (id, counter) == AssignIds(old(id), old(counter), order)
      ensures shown == Members(order) == VisibleNodes(tree, folds)
      ensures t.nodes == Classify(old(rendered), rendered)
      ensures t.links == Classify(old(renderedLinks), renderedLinks)
      ensures forall n :: n in old(id) ==> n in id && id[n] == old(id)[n]
      ensures t.nodes == Diff(Image(id, shown - old(shown)), Image(id, shown * old(shown)), Image(id, old(shown) - shown))
      ensures rendered == Image(id, shown) && renderedLinks == Image(id, shown - {Root})
      ensures x == Assigned(old(x), layoutX, order) && y == Assigned(old(y), Heights(tree), order)
      ensures x0 == Assigned(old(x0), x, order) && y0 == Assigned(old(y0), y, order)
      ensures t.enterFrom == if d in old(x0) && d in old(y0) then Some(Point(old(x0)[d], old(y0)[d])) else None
      ensures d in order ==> t.exitTo == Some(Point(layoutX[d], tree.nodes[d].depth * LevelSpacing))
      ensures d !in order ==> t.exitTo == if d in old(x) && d in old(y) then Some(Point(old(x)[d], old(y)[d])) else None
    {
      Toggle(d);
      t := Update(d, order, layoutX);
      AssignedSpec(old(x), layoutX, order);
      AssignedSpec(old(y), Heights(tree), order);
    }
  }
}
