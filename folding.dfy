/**
 * Expand/collapse state of the hierarchy nodes: each node's `children`
 * (shown) and `_children` (stashed) lists (assets/js/taxonomy.js:86-96,
 * 115-124), and the visible set they determine.
 */
module Folding {
  import opened Wrappers
  import opened Hierarchy

  /** One node's `children` and `_children`; None stands for null/undefined. */
  datatype Fold = Fold(children: Option<seq<nat>>, hiddenChildren: Option<seq<nat>>)

  /**
   * The click handler's swap (lines 116-122): shown children are stashed,
   * otherwise the stash (possibly absent) becomes the shown list.
   */
  function Toggled(f: Fold): (r: Fold)
    ensures !(r.children.Some? && r.hiddenChildren.Some?)
    ensures r.children.Some? <==> f.children.None? && f.hiddenChildren.Some?
    ensures r.hiddenChildren.Some? <==> f.children.Some?
  {
    if f.children.Some? then Fold(None, f.children) else Fold(f.hiddenChildren, None)
  }

  /** What `collapse` leaves in one node it visits (lines 91-95). */
  function Stashed(f: Fold): (r: Fold)
    ensures r.children.None?
    ensures r.hiddenChildren == if f.children.Some? then f.children else f.hiddenChildren
  {
    if f.children.Some? then Fold(None, f.children) else f
  }

  predicate Exclusive(f: Fold)
  {
    !(f.children.Some? && f.hiddenChildren.Some?)
  }

  /** Clicking twice gives back the same shown list, and the whole state when at most one list was set. */
  lemma ToggleTwice(f: Fold)
    ensures Toggled(Toggled(f)).children == f.children
    ensures Exclusive(f) ==> Toggled(Toggled(f)) == f
  {
  }

  /** The state `d3.hierarchy` creates: children present exactly when there are some. */
  function Expanded(kids: seq<nat>): Fold
  {
    Fold(if kids == [] then None else Some(kids), None)
  }

  /** Each list, when present, is the node's own child list. */
  predicate ShapedAt(h: Tree, n: nat, f: Fold)
    requires n < |h.nodes|
  {
    && (f.children.None? || f.children == Some(h.nodes[n].kids))
    && (f.hiddenChildren.None? || f.hiddenChildren == Some(h.nodes[n].kids))
  }

  /** Exactly one list holds the children of a non-leaf; a leaf has neither. */
  predicate Settled(h: Tree, n: nat, f: Fold)
    requires n < |h.nodes|
  {
    var kids := h.nodes[n].kids;
    if kids == [] then f == Fold(None, None)
    else f == Fold(Some(kids), None) || f == Fold(None, Some(kids))
  }

  lemma SettledIsShapedAndExclusive(h: Tree, n: nat, f: Fold)
    requires n < |h.nodes| && Settled(h, n, f)
    ensures ShapedAt(h, n, f) && Exclusive(f)
  {
  }

  lemma ToggleKeepsSettled(h: Tree, n: nat, f: Fold)
    requires n < |h.nodes| && Settled(h, n, f)
    ensures Settled(h, n, Toggled(f))
  {
  }

  predicate Shaped(h: Tree, folds: seq<Fold>)
  {
    && WellFormed(h)
    && |folds| == |h.nodes|
    && forall n :: 0 <= n < |folds| ==> ShapedAt(h, n, folds[n])
  }

  predicate AllSettled(h: Tree, folds: seq<Fold>)
  {
    && WellFormed(h)
    && |folds| == |h.nodes|
    && forall n :: 0 <= n < |folds| ==> Settled(h, n, folds[n])
  }

  predicate ShownChild(f: Fold, c: nat)
  {
    f.children.Some? && c in f.children.value
  }

  /**
   * `n` is reachable from `d` through `children` links alone. Such a path in
   * a tree is the parent chain, so it is followed upward from `n`.
   */
  predicate Below(h: Tree, folds: seq<Fold>, d: nat, n: nat)
    requires WellFormed(h) && |folds| == |h.nodes| && n < |h.nodes|
    decreases n
  {
    n == d || (n != Root && ShownChild(folds[Parent(h, n)], n) && Below(h, folds, d, Parent(h, n)))
  }

  /** The visible set: nodes reachable from the root through `children`. */
  predicate Visible(h: Tree, folds: seq<Fold>, n: nat)
    requires WellFormed(h) && |folds| == |h.nodes| && n < |h.nodes|
  {
    Below(h, folds, Root, n)
  }

  /** The visible nodes as a set: what `root.descendants()` enumerates. */
  ghost function VisibleNodes(h: Tree, folds: seq<Fold>): set<nat>
    requires WellFormed(h) && |folds| == |h.nodes|
  {
    set n | 0 <= n < |h.nodes| && Visible(h, folds, n)
  }

  lemma {:induction false} BelowIsAncestor(h: Tree, folds: seq<Fold>, d: nat, n: nat)
    requires WellFormed(h) && |folds| == |h.nodes| && n < |h.nodes|
    requires Below(h, folds, d, n)
    ensures IsAncestorOrSelf(h, d, n)
    decreases n
  {
    if n != d {
      BelowIsAncestor(h, folds, d, Parent(h, n));
    }
  }

  /** Reachability from `d` depends only on the states of `d`'s subtree. */
  lemma {:induction false} BelowFrame(h: Tree, f1: seq<Fold>, f2: seq<Fold>, d: nat, n: nat)
    requires WellFormed(h) && |f1| == |h.nodes| && |f2| == |h.nodes| && n < |h.nodes|
    requires forall m :: 0 <= m < |h.nodes| && IsAncestorOrSelf(h, d, m) ==> f1[m] == f2[m]
    ensures Below(h, f1, d, n) == Below(h, f2, d, n)
    decreases n
  {
    if n != d && n != Root {
      var p := Parent(h, n);
      BelowFrame(h, f1, f2, d, p);
      if Below(h, f1, d, p) {
        BelowIsAncestor(h, f1, d, p);
      }
    }
  }

  /**
   * Below a shown node `d` (other than `d` itself) lie exactly the nodes that
   * lie below one of its children.
   */
  lemma {:induction false} BelowViaChildren(h: Tree, folds: seq<Fold>, d: nat, n: nat)
    requires Shaped(h, folds) && d < |h.nodes| && n < |h.nodes| && n != d
    ensures Below(h, folds, d, n) <==>
      folds[d].children.Some? && exists i :: 0 <= i < |h.nodes[d].kids| && Below(h, folds, h.nodes[d].kids[i], n)
    decreases n
  {
    var kids := h.nodes[d].kids;
    assert ShapedAt(h, d, folds[d]);
    assert KidsOk(h, d);
    if n != Root {
      var p := Parent(h, n);
      if Below(h, folds, d, n) {
        if p == d {
          var i :| 0 <= i < |kids| && kids[i] == n;
          assert Below(h, folds, kids[i], n);
        } else {
          BelowViaChildren(h, folds, d, p);
          var i :| 0 <= i < |kids| && Below(h, folds, kids[i], p);
          assert Below(h, folds, kids[i], n);
        }
      }
      if folds[d].children.Some? && exists i :: 0 <= i < |kids| && Below(h, folds, kids[i], n) {
        var i :| 0 <= i < |kids| && Below(h, folds, kids[i], n);
        var c := kids[i];
        if n == c {
          assert ShownChild(folds[d], c);
        } else {
          // p comes after c, which comes after d, so p is not d
          BelowIsAncestor(h, folds, c, p);
          AncestorNotAfter(h, c, p);
          assert c != Root && Parent(h, c) == d;
          BelowViaChildren(h, folds, d, p);
        }
      }
    } else {
      forall i | 0 <= i < |kids| ensures !Below(h, folds, kids[i], n) {
        assert h.nodes[kids[i]].parent == Some(d);
      }
    }
  }

  /**
   * A node is visible exactly when every node strictly above it shows its
   * children: no collapsed node lies between it and the root.
   */
  lemma {:induction false} VisibleIffAncestorsShown(h: Tree, folds: seq<Fold>, n: nat)
    requires Shaped(h, folds) && n < |h.nodes|
    ensures Visible(h, folds, n) <==>
      forall a :: 0 <= a < |h.nodes| && a != n && IsAncestorOrSelf(h, a, n) ==> folds[a].children.Some?
    decreases n
  {
    if n == Root {
      forall a | 0 <= a < |h.nodes| && IsAncestorOrSelf(h, a, n) ensures a == n {
        AncestorNotAfter(h, a, n);
      }
    } else {
      var p := Parent(h, n);
      assert ShapedAt(h, p, folds[p]);
      assert ShownChild(folds[p], n) <==> folds[p].children.Some?;
      VisibleIffAncestorsShown(h, folds, p);
      forall a | 0 <= a < |h.nodes| ensures (a != n && IsAncestorOrSelf(h, a, n)) <==> IsAncestorOrSelf(h, a, p) {
        if IsAncestorOrSelf(h, a, p) {
          AncestorNotAfter(h, a, p);
        }
      }
    }
  }

  /** With every node in its `d3.hierarchy` state, the nodes below `d` are its whole subtree. */
  lemma {:induction false} ExpandedBelow(h: Tree, folds: seq<Fold>, d: nat, n: nat)
    requires WellFormed(h) && |folds| == |h.nodes| && n < |h.nodes|
    requires forall m :: 0 <= m < |h.nodes| ==> folds[m] == Expanded(h.nodes[m].kids)
    ensures Below(h, folds, d, n) <==> IsAncestorOrSelf(h, d, n)
    decreases n
  {
    if n != d && n != Root {
      var p := Parent(h, n);
      assert h.nodes[p].kids != [];
      ExpandedBelow(h, folds, d, p);
    }
  }

  /** The state after `root.children.forEach(collapse)` (line 86). */
  function Mounted(h: Tree, n: nat): Fold
    requires n < |h.nodes|
  {
    if n == Root then Expanded(h.nodes[n].kids) else Stashed(Expanded(h.nodes[n].kids))
  }

  /** After mounting, the visible nodes are the root and its children. */
  lemma MountedVisible(h: Tree, folds: seq<Fold>, n: nat)
    requires WellFormed(h) && |folds| == |h.nodes| && n < |h.nodes|
    requires forall m :: 0 <= m < |h.nodes| ==> folds[m] == Mounted(h, m)
    ensures Visible(h, folds, n) <==> h.nodes[n].depth <= 1
  {
    DepthZeroIsRoot(h, n);
    if n != Root {
      var p := Parent(h, n);
      DepthZeroIsRoot(h, p);
      if p == Root {
        assert ShownChild(folds[p], n);
        assert Below(h, folds, Root, p);
      } else {
        assert !ShownChild(folds[p], n);
      }
    }
  }

  lemma MountedSettled(h: Tree, n: nat)
    requires WellFormed(h) && n < |h.nodes|
    ensures Settled(h, n, Mounted(h, n))
  {
  }

  // ---------------------------------------------------------------------------
  // What a click does to the visible set

  /** Clicking a node that has neither list leaves it without shown children. */
  lemma ToggleLeaf(f: Fold)
    requires f.children.None? && f.hiddenChildren.None?
    ensures Toggled(f) == f && Toggled(f).children.None?
  {
  }

  /** A click on `d` changes no node's visibility outside the nodes strictly below `d`. */
  lemma {:induction false} ToggleOutsideSubtree(h: Tree, folds: seq<Fold>, d: nat, n: nat)
    requires WellFormed(h) && |folds| == |h.nodes| && d < |h.nodes| && n < |h.nodes|
    requires n == d || !IsAncestorOrSelf(h, d, n)
    ensures Visible(h, folds[d := Toggled(folds[d])], n) == Visible(h, folds, n)
    decreases n
  {
    if n != Root {
      var p := Parent(h, n);
      if IsAncestorOrSelf(h, d, p) {
        AncestorNotAfter(h, d, p);
      }
      ToggleOutsideSubtree(h, folds, d, p);
    }
  }

  /** Collapsing a node by a click hides every node strictly below it. */
  lemma {:induction false} ToggleHidesBelow(h: Tree, folds: seq<Fold>, d: nat, n: nat)
    requires WellFormed(h) && |folds| == |h.nodes| && d < |h.nodes| && n < |h.nodes|
    requires folds[d].children.Some?
    requires IsAncestorOrSelf(h, d, n) && n != d
    ensures !Visible(h, folds[d := Toggled(folds[d])], n)
    decreases n
  {
    var p := Parent(h, n);
    if p != d {
      ToggleHidesBelow(h, folds, d, p);
    }
  }

  /** Expanding a visible collapsed node by a click makes each of its children visible. */
  lemma ToggleShowsChildren(h: Tree, folds: seq<Fold>, d: nat, c: nat)
    requires Shaped(h, folds) && d < |h.nodes| && Visible(h, folds, d)
    requires folds[d].children.None? && folds[d].hiddenChildren.Some?
    requires 0 < c < |h.nodes| && Parent(h, c) == d
    ensures Visible(h, folds[d := Toggled(folds[d])], c)
  {
    assert ShapedAt(h, d, folds[d]);
    ToggleOutsideSubtree(h, folds, d, d);
  }

  // ---------------------------------------------------------------------------
  // What `collapse` does, stated on states

  lemma BelowAncestor(h: Tree, folds: seq<Fold>, d: nat, n: nat)
    requires WellFormed(h) && |folds| == |h.nodes| && n < |h.nodes|
    ensures Below(h, folds, d, n) ==> IsAncestorOrSelf(h, d, n)
  {
    if Below(h, folds, d, n) {
      BelowIsAncestor(h, folds, d, n);
    }
  }

  /**
   * `f` is `f0` with every node reachable through shown children from one of
   * `roots` stashed, and every other node as it was.
   */
  predicate CollapsedFrom(h: Tree, f0: seq<Fold>, f: seq<Fold>, roots: seq<nat>)
    requires WellFormed(h) && |f0| == |h.nodes|
    requires forall i :: 0 <= i < |roots| ==> roots[i] < |h.nodes|
  {
    && |f| == |f0|
    && forall n :: 0 <= n < |f0| ==>
         f[n] == if exists i :: 0 <= i < |roots| && Below(h, f0, roots[i], n) then Stashed(f0[n]) else f0[n]
  }

  lemma CollapsedShaped(h: Tree, f0: seq<Fold>, f: seq<Fold>, roots: seq<nat>)
    requires Shaped(h, f0) && forall i :: 0 <= i < |roots| ==> roots[i] < |h.nodes|
    requires CollapsedFrom(h, f0, f, roots)
    ensures Shaped(h, f)
  {
    forall n | 0 <= n < |f| ensures ShapedAt(h, n, f[n]) {
      assert ShapedAt(h, n, f0[n]);
    }
  }

  /** `collapse(d)` on a node whose children are not shown changes nothing. */
  lemma CollapseUnshown(h: Tree, f0: seq<Fold>, d: nat)
    requires Shaped(h, f0) && d < |h.nodes| && f0[d].children.None?
    ensures CollapsedFrom(h, f0, f0, [d])
  {
    forall n | 0 <= n < |f0| && n != d ensures !Below(h, f0, d, n) {
      BelowViaChildren(h, f0, d, n);
    }
  }

  /** Changing a node's own state does not change what lies below any of its children. */
  lemma BelowChildIgnoresParent(h: Tree, f0: seq<Fold>, d: nat, g: Fold, c: nat, n: nat)
    requires WellFormed(h) && |f0| == |h.nodes| && d < |h.nodes| && n < |h.nodes|
    requires 0 < c < |h.nodes| && Parent(h, c) == d
    ensures Below(h, f0[d := g], c, n) == Below(h, f0, c, n)
  {
    forall m | 0 <= m < |h.nodes| && IsAncestorOrSelf(h, c, m) ensures f0[d := g][m] == f0[m] {
      AncestorNotAfter(h, c, m);
    }
    BelowFrame(h, f0[d := g], f0, c, n);
  }

  /**
   * `d._children = d.children; d._children.forEach(collapse); d.children = null`:
   * if the children loop stashes the subtrees of the children, the whole
   * body stashes the subtree of `d`.
   */
  lemma CollapseShown(h: Tree, f0: seq<Fold>, d: nat, f2: seq<Fold>)
    requires Shaped(h, f0) && d < |h.nodes| && f0[d].children.Some?
    requires KidsOk(h, d)
    requires CollapsedFrom(h, f0[d := f0[d].(hiddenChildren := f0[d].children)], f2, h.nodes[d].kids)
    ensures CollapsedFrom(h, f0, f2[d := f2[d].(children := None)], [d])
  {
    var kids := h.nodes[d].kids;
    var f1 := f0[d := f0[d].(hiddenChildren := f0[d].children)];
    assert ShapedAt(h, d, f0[d]);
    forall i | 0 <= i < |kids| ensures 0 < kids[i] && Parent(h, kids[i]) == d {
      assert ParentOk(h, kids[i]);
    }
    forall n | 0 <= n < |f0|
      ensures f2[d := f2[d].(children := None)][n] == if Below(h, f0, d, n) then Stashed(f0[n]) else f0[n]
    {
      forall i | 0 <= i < |kids| ensures Below(h, f1, kids[i], n) == Below(h, f0, kids[i], n) {
        BelowChildIgnoresParent(h, f0, d, f1[d], kids[i], n);
        assert f0[d := f1[d]] == f1;
      }
      if n == d {
        forall i | 0 <= i < |kids| ensures !Below(h, f1, kids[i], d) {
          BelowAncestor(h, f1, kids[i], d);
          if IsAncestorOrSelf(h, kids[i], d) {
            AncestorNotAfter(h, kids[i], d);
          }
        }
      } else {
        BelowViaChildren(h, f0, d, n);
      }
    }
    SingleRoot(h, f0, d);
  }

  lemma SingleRoot(h: Tree, f0: seq<Fold>, d: nat)
    requires WellFormed(h) && |f0| == |h.nodes| && d < |h.nodes|
    ensures forall n :: 0 <= n < |h.nodes| ==>
      ((exists i :: 0 <= i < |[d]| && Below(h, f0, [d][i], n)) <==> Below(h, f0, d, n))
  {
    forall n | 0 <= n < |h.nodes| && Below(h, f0, d, n)
      ensures exists i :: 0 <= i < |[d]| && Below(h, f0, [d][i], n)
    {
      assert [d][0] == d;
    }
  }

  /** One more turn of `forEach(collapse)` over the children of `p`. */
  lemma CollapseEachStep(h: Tree, f0: seq<Fold>, f: seq<Fold>, f2: seq<Fold>, p: nat, k: nat)
    requires WellFormed(h) && |f0| == |h.nodes| && p < |h.nodes| && k < |h.nodes[p].kids|
    requires KidsOk(h, p)
    requires CollapsedFrom(h, f0, f, h.nodes[p].kids[..k])
    requires CollapsedFrom(h, f, f2, [h.nodes[p].kids[k]])
    ensures CollapsedFrom(h, f0, f2, h.nodes[p].kids[..k + 1])
  {
    var cs := h.nodes[p].kids;
    var c := cs[k];
    assert ParentOk(h, c);
    // the subtree of c lies outside the subtrees already stashed
    forall m | 0 <= m < |h.nodes| && IsAncestorOrSelf(h, c, m) ensures f[m] == f0[m] {
      forall i | 0 <= i < k ensures !Below(h, f0, cs[i], m) {
        assert ParentOk(h, cs[i]);
        BelowAncestor(h, f0, cs[i], m);
        SiblingSubtreesDisjoint(h, c, cs[i], m);
      }
    }
    var done, next := cs[..k], cs[..k + 1];
    SingleRoot(h, f, c);
    forall n | 0 <= n < |f0|
      ensures f2[n] == if exists i :: 0 <= i < k + 1 && Below(h, f0, next[i], n) then Stashed(f0[n]) else f0[n]
    {
      BelowFrame(h, f, f0, c, n);
      BelowAncestor(h, f0, c, n);
      assert forall i :: 0 <= i < k ==> next[i] == done[i];
      assert next[k] == c;
    }
  }

  /**
   * `root.children.forEach(collapse)` on the state `d3.hierarchy` builds
   * leaves the state of line 86: every node but the root is stashed.
   */
  lemma CollapseRootChildren(h: Tree, e: seq<Fold>, f: seq<Fold>)
    requires WellFormed(h) && |e| == |h.nodes|
    requires forall m :: 0 <= m < |h.nodes| ==> e[m] == Expanded(h.nodes[m].kids)
    requires KidsOk(h, Root)
    requires CollapsedFrom(h, e, f, h.nodes[Root].kids)
    ensures forall n :: 0 <= n < |h.nodes| ==> f[n] == Mounted(h, n)
  {
    var kids := h.nodes[Root].kids;
    forall n | 0 <= n < |h.nodes| ensures f[n] == Mounted(h, n) {
      if n == Root {
        forall i | 0 <= i < |kids| ensures !Below(h, e, kids[i], n) {
          ExpandedBelow(h, e, kids[i], n);
        }
      } else {
        DepthZeroIsRoot(h, n);
        var a := DepthOneAncestor(h, n);
        var i :| 0 <= i < |kids| && kids[i] == a;
        ExpandedBelow(h, e, a, n);
      }
    }
  }
}
