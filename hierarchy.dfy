/**
 * The node hierarchy `d3.hierarchy(taxonomyData, d => d.children)` builds
 * (assets/js/taxonomy.js:81), flattened: node 0 is the root and every other
 * node names its parent, which comes earlier. Each node keeps its record
 * (`d.data`), its `depth` and the ordered list of its children.
 */
module Hierarchy {
  import opened Wrappers

  /** One entry of the taxonomy document. Every field but `name` may be absent. */
  datatype Record = Record(
    name: string,
    role: Option<string>,
    definition: Option<string>,
    conceptual: Option<string>,
    example: Option<string>,
    highlightSpan: Option<seq<int>>)

  /** A hierarchy node: `d.data`, `d.parent`, `d.depth` and the child list. */
  datatype Node = Node(data: Record, parent: Option<nat>, depth: nat, kids: seq<nat>)

  datatype Tree = Tree(nodes: seq<Node>)

  const Root: nat := 0

  predicate ParentOk(h: Tree, n: nat)
    requires n < |h.nodes|
  {
    match h.nodes[n].parent
    case None => false
    case Some(p) => p < n && h.nodes[n].depth == h.nodes[p].depth + 1 && n in h.nodes[p].kids
  }

  predicate KidsOk(h: Tree, n: nat)
    requires n < |h.nodes|
  {
    var kids := h.nodes[n].kids;
    && (forall i :: 0 <= i < |kids| ==> kids[i] < |h.nodes| && h.nodes[kids[i]].parent == Some(n))
    && (forall i, j :: 0 <= i < j < |kids| ==> kids[i] != kids[j])
  }

  /**
   * The shape d3 guarantees: one root at depth 0, every other node one level
   * below its parent and listed among that parent's children, and child lists
   * that name each child once.
   */
  predicate WellFormed(h: Tree)
  {
    && |h.nodes| > 0
    && h.nodes[Root].parent == None
    && h.nodes[Root].depth == 0
    && (forall n :: 0 < n < |h.nodes| ==> ParentOk(h, n))
    && (forall n :: 0 <= n < |h.nodes| ==> KidsOk(h, n))
  }

  function Parent(h: Tree, n: nat): (p: nat)
    requires WellFormed(h) && 0 < n < |h.nodes|
    ensures p < n && h.nodes[p].depth + 1 == h.nodes[n].depth && n in h.nodes[p].kids
  {
    assert ParentOk(h, n);
    h.nodes[n].parent.value
  }

  lemma DepthZeroIsRoot(h: Tree, n: nat)
    requires WellFormed(h) && n < |h.nodes|
    ensures h.nodes[n].depth == 0 <==> n == Root
  {
    if n != Root {
      assert ParentOk(h, n);
    }
  }

  /** `a` is `n` or lies on the `parent` chain above `n`. */
  predicate IsAncestorOrSelf(h: Tree, a: nat, n: nat)
    requires WellFormed(h) && n < |h.nodes|
    decreases n
  {
    n == a || (n != Root && IsAncestorOrSelf(h, a, Parent(h, n)))
  }

  lemma {:induction false} AncestorNotAfter(h: Tree, a: nat, n: nat)
    requires WellFormed(h) && n < |h.nodes|
    requires IsAncestorOrSelf(h, a, n)
    ensures a <= n && h.nodes[a].depth <= h.nodes[n].depth
    decreases n
  {
    if n != a {
      AncestorNotAfter(h, a, Parent(h, n));
    }
  }

  /** Two different children of one node have disjoint subtrees. */
  lemma {:induction false} SiblingSubtreesDisjoint(h: Tree, a: nat, b: nat, n: nat)
    requires WellFormed(h) && n < |h.nodes| && 0 < a < |h.nodes| && 0 < b < |h.nodes|
    requires a != b && Parent(h, a) == Parent(h, b)
    requires IsAncestorOrSelf(h, a, n)
    ensures !IsAncestorOrSelf(h, b, n)
    decreases n
  {
    if n == a {
      if IsAncestorOrSelf(h, b, a) {
        AncestorNotAfter(h, b, Parent(h, a));
      }
    } else if n == b {
      AncestorNotAfter(h, a, Parent(h, b));
    } else {
      SiblingSubtreesDisjoint(h, a, b, Parent(h, n));
    }
  }

  /** The ancestor `k` steps above `n` (`n` itself for `k = 0`). */
  function Ancestor(h: Tree, n: nat, k: nat): (a: nat)
    requires WellFormed(h) && n < |h.nodes| && k <= h.nodes[n].depth
    ensures a < |h.nodes| && h.nodes[a].depth == h.nodes[n].depth - k
    decreases k
  {
    if k == 0 then n
    else
      DepthZeroIsRoot(h, n);
      Ancestor(h, Parent(h, n), k - 1)
  }

  /** JavaScript truthiness of the node's own `role`. */
  predicate HasRole(h: Tree, n: nat)
    requires n < |h.nodes|
  {
    Truthy(h.nodes[n].data.role)
  }

  /**
   * The role of the nearest node with a truthy `role` on the path from `n` up
   * to the root, None when there is none (specification of the walk in
   * `highlightSpan`, assets/js/taxonomy.js:43-48).
   */
  function NearestRole(h: Tree, n: nat): (r: Option<string>)
    requires WellFormed(h) && n < |h.nodes|
    ensures r.None? || Truthy(r)
    decreases n
  {
    if HasRole(h, n) then h.nodes[n].data.role
    else if n == Root then None
    else NearestRole(h, Parent(h, n))
  }

  /**
   * NearestRole finds the FIRST truthy role on the upward path: it is None
   * exactly when no node on the path has one, and otherwise it is the role of
   * the node `k` steps up, below which no node has one.
   */
  lemma {:induction false} NearestRoleIsFirst(h: Tree, n: nat) returns (k: nat)
    requires WellFormed(h) && n < |h.nodes|
    ensures NearestRole(h, n).None? <==>
      forall i :: 0 <= i <= h.nodes[n].depth ==> !HasRole(h, Ancestor(h, n, i))
    ensures NearestRole(h, n).Some? ==>
      && k <= h.nodes[n].depth
      && HasRole(h, Ancestor(h, n, k))
      && h.nodes[Ancestor(h, n, k)].data.role == NearestRole(h, n)
      && forall j :: 0 <= j < k ==> !HasRole(h, Ancestor(h, n, j))
    decreases n
  {
    DepthZeroIsRoot(h, n);
    assert Ancestor(h, n, 0) == n;
    if HasRole(h, n) {
      k := 0;
    } else if n == Root {
      k := 0;
      forall i | 0 <= i <= h.nodes[n].depth ensures !HasRole(h, Ancestor(h, n, i)) {
        assert i == 0;
      }
    } else {
      var p := Parent(h, n);
      var kp := NearestRoleIsFirst(h, p);
      forall i | 1 <= i <= h.nodes[n].depth ensures Ancestor(h, n, i) == Ancestor(h, p, i - 1) {
      }
      k := kp + 1;
      if NearestRole(h, p).None? {
        forall i | 0 <= i <= h.nodes[n].depth ensures !HasRole(h, Ancestor(h, n, i)) {
          if i > 0 {
            assert !HasRole(h, Ancestor(h, p, i - 1));
          }
        }
      } else {
        assert HasRole(h, Ancestor(h, n, k));
      }
    }
  }

  /**
   * `let ancestor = d; while (ancestor.depth > 1) ancestor = ancestor.parent;`
   * (assets/js/taxonomy.js:163-164): the depth-1 node above a node below the root.
   */
  function DepthOneAncestor(h: Tree, n: nat): (a: nat)
    requires WellFormed(h) && n < |h.nodes| && h.nodes[n].depth >= 1
    ensures a < |h.nodes| && h.nodes[a].depth == 1
    ensures a == Ancestor(h, n, h.nodes[n].depth - 1)
    ensures IsAncestorOrSelf(h, a, n) && a != Root && Parent(h, a) == Root
    decreases n
  {
    DepthZeroIsRoot(h, n);
    if h.nodes[n].depth == 1 then
      assert Parent(h, n) == Root by { DepthZeroIsRoot(h, Parent(h, n)); }
      n
    else
      DepthOneAncestor(h, Parent(h, n))
  }
}
