# Taxonomy tree: a verified model

`assets/js/taxonomy.js` draws a participant-role taxonomy as a collapsible
d3 tree. It loads a JSON hierarchy whose root has three bands, named
protagonist, antagonist and innocent. At start only the root is expanded:
every band and everything below it is collapsed, so the root and the three
bands are drawn. A click on a node folds its children away or unfolds them.

Each `update(source)` does the following:
- lays out the visible nodes;
- gives each node a key the first time it is drawn;
- joins the nodes and links against the elements on the page (enter, update, exit);
- moves entering elements in from the clicked node's previous position, and exiting ones to its new position.

The circles are coloured by the role of their depth-1 band. Nodes below a
band get a lightened copy of the band colour (`lightenColor`). A tooltip shows
a node's fields by depth, with the example sentence highlighted
(`highlightSpan`) in the colour of the nearest role on the way to the root.

The Dafny modules follow that structure:

| module | file | what it holds |
|---|---|---|
| `Wrappers` | wrappers.dfy | `Option` and JavaScript truthiness of an optional string |
| `Colors` | colors.dfy | the palette, and `lightenColor` in JavaScript's terms: `parseInt(…, 16)`, the 32-bit bit operators, clamping, `toString(16)` and `slice(1)` |
| `Hierarchy` | hierarchy.dfy | the d3 hierarchy as an arena of nodes (index 0 is the root, and parents come before children), ancestors, the nearest role, and the depth-1 ancestor |
| `Highlight` | highlight.dfy | `highlightSpan`: JavaScript's `slice`, the span assembly, and the loop that walks up the tree looking for a role |
| `Tooltip` | tooltip.dfy | which tooltip sections a node shows, by depth |
| `Styling` | styling.dfy | the fill and stroke rules, with their ancestor loop, and the label side |
| `Folding` | folding.dfy | the `children`/`_children` pair of each node, what a click does to it, `collapse`, and which nodes are visible |
| `Reconcile` | reconcile.dfy | a keyed data join, split into enter, update and exit |
| `Keys` | keys.dfy | the key function `d.id \|\| (d.id = ++i)` and the keys of a set of nodes |
| `Taxonomy` | taxonomy.dfy | the widget state as a class: the field updates made by `collapse`, the click handler and `update` |

Choices worth knowing:

- `lightenColor(baseColor, 50)` computes `amt = Math.round(2.55 * 50)`. In IEEE doubles, `2.55 * 50` is 127.49999999999999, so `amt` is 127, not 128.
  - The model passes the integer amount (`Styling.ChildLighten` = 127).
  - It proves that a protagonist child is filled with `#9ef6ff`. Rounding 2.55 × 50 to 128 would give `#9ff7ff`; the model follows the arithmetic the code performs.
- `parseInt("999", 16)` is 0x999, so `#999` is read as the 24-bit number 0x000999, which gives channels (0, 9, 153).
  - Lightening it by 127 gives `#7f88ff`, a pale violet, not a light grey. `Colors.ShorthandIsOneNumber` and `Colors.LightenFallbackExample` state this.
  - An empty or non-hex colour makes `parseInt` return NaN, which the bit operators turn into 0.
- Visibility means being reachable from the root through shown `children` lists. It is defined going up the parent links (`Folding.Below`).
  - `Folding.VisibleIffAncestorsShown` states it as "every proper ancestor has its children shown".
- `update` takes two inputs:
  - the layout's x coordinate of each node;
  - the order of `descendants()`, which must list exactly the visible nodes, each once.
- The page state is keyed element sets. An exit transition is taken to have removed its elements before the next `update`.

## Model

| member | source | states |
|---|---|---|
| Colors.Palette | assets/js/taxonomy.js:6-10 | the palette has an entry exactly for the three role names |
| Colors.PaletteOr | assets/js/taxonomy.js:50 | `roleColors[role] || fallback`: the palette colour of a known role, otherwise the fallback |
| Colors.ParseInt16 | assets/js/taxonomy.js:14 | `parseInt(s, 16)` is NaN (None) exactly when `s` is empty or does not start with a hex digit |
| Colors.HexRun | assets/js/taxonomy.js:14 | the digits parsed are the longest leading run of hex digits |
| Colors.ParseAllHex | assets/js/taxonomy.js:14 | a non-empty all-hex string parses to its hexadecimal value |
| Colors.BitOperand | assets/js/taxonomy.js:16-18 | the operand `>>` and `&` see: NaN gives 0 and a number below 2^31 is itself; otherwise ToInt32 (stated by `Colors.ToInt32`) |
| Colors.Split | assets/js/taxonomy.js:16-18 | the three shifts and masks on a 32-bit operand; `Colors.Pack` and `Colors.SplitIsPacked` state that it inverts packing on 24-bit numbers |
| Colors.Channels | assets/js/taxonomy.js:14-18 | the channels of a parsed number, NaN included; `Colors.ShorthandIsOneNumber` and `Colors.DecodeSix` state its values |
| Colors.Decode | assets/js/taxonomy.js:14-18 | the decoding half of `lightenColor`; `Colors.DecodeFixed` and `Colors.LightenChannels` state what it reads back |
| Colors.ToInt32 | assets/js/taxonomy.js:16-18 | the operand of `>>`/`&` lies in the signed 32-bit range and is congruent to the number modulo 2^32 |
| Colors.Clamp | assets/js/taxonomy.js:21-23 | the nested conditional clamps a channel to 0..255, leaving in-range values unchanged |
| Colors.ToHexSpec | assets/js/taxonomy.js:19-24 | `toString(16)` gives lowercase hex digits with no leading zero, whose value is the number |
| Colors.ToHex | assets/js/taxonomy.js:24 | `toString(16)` is never empty; its digits, value and first digit are stated by `Colors.ToHexSpec` |
| Colors.HexFixed | assets/js/taxonomy.js:19-24 | the zero-padded form has exactly the requested width, in lowercase hex |
| Colors.ToHexSentinel | assets/js/taxonomy.js:19-24 | adding 16^w before `toString(16)` yields '1' followed by exactly w zero-padded digits of the value, so `slice(1)` keeps w digits |
| Colors.HexFixedValue | assets/js/taxonomy.js:19-24 | the zero-padded digits read back as the value |
| Colors.HexFixedOfValue | assets/js/taxonomy.js:19-24 | a lowercase hex string is the zero-padded form of its own value (the other direction of the round trip) |
| Colors.Pack | assets/js/taxonomy.js:20-23 | packing three bytes gives a 24-bit number from which the shifts and masks recover the same three channels |
| Colors.SplitIsPacked | assets/js/taxonomy.js:16-23 | every 24-bit number is the packing of its own channels |
| Colors.Lightened | assets/js/taxonomy.js:16-23 | the shifted and clamped channels are bytes |
| Colors.Encode | assets/js/taxonomy.js:19-24 | `"#" + (0x1000000 + v).toString(16).slice(1)` is "#" followed by v in exactly six zero-padded digits |
| Colors.LightenColor | assets/js/taxonomy.js:13-25 | the result is always "#" followed by six lowercase hex digits, whatever the input |
| Colors.DecodeFixed | assets/js/taxonomy.js:14-24 | reading back an encoded colour gives its channels |
| Colors.DecodeSix | assets/js/taxonomy.js:14-18 | a six-digit colour decodes to the channels of its value |
| Colors.LightenChannels | assets/js/taxonomy.js:13-25 | the lightened colour decodes to each channel of the input plus the amount, clamped to 0..255 |
| Colors.LightenZeroIdentity | assets/js/taxonomy.js:13-25 | lightening a six-digit lowercase colour by 0 returns it unchanged |
| Colors.ShorthandIsOneNumber | assets/js/taxonomy.js:14-18 | the grey fallback "#999" is read as the number 0x999, with channels (0, 9, 153) |
| Colors.DecodeBlue | assets/js/taxonomy.js:14-18 | the protagonist blue decodes to (31, 119, 180) |
| Colors.LightenBlueExample | assets/js/taxonomy.js:13-25 | the protagonist blue lightened by 127 is "#9ef6ff" |
| Colors.LightenFallbackExample | assets/js/taxonomy.js:13-25 | the grey fallback lightened by 127 is "#7f88ff" |
| Hierarchy.Parent | assets/js/taxonomy.js:81 | a non-root node's parent comes before it, is one level shallower and lists it among its children |
| Hierarchy.DepthZeroIsRoot | assets/js/taxonomy.js:81 | depth 0 holds exactly for the root |
| Hierarchy.AncestorNotAfter | assets/js/taxonomy.js:81 | an ancestor is never deeper than its descendant, nor later in the arena |
| Hierarchy.SiblingSubtreesDisjoint | assets/js/taxonomy.js:81 | the subtrees of two distinct siblings share no node |
| Hierarchy.Ancestor | assets/js/taxonomy.js:45-47 | k steps up the parent links is a node exactly k levels shallower |
| Hierarchy.NearestRole | assets/js/taxonomy.js:43-48 | the role the upward walk finds is absent or truthy |
| Hierarchy.NearestRoleIsFirst | assets/js/taxonomy.js:43-48 | the walk finds no role exactly when no ancestor-or-self has one; otherwise it finds the role of the first ancestor that has one, with none below it |
| Hierarchy.DepthOneAncestor | assets/js/taxonomy.js:163-164 | the depth-1 ancestor of a node at depth ≥ 1 is its ancestor at depth 1, a child of the root |
| Highlight.RelIndex | assets/js/taxonomy.js:38-40 | `slice` resolves an index against the length: negative ones count from the end, and out-of-range ones are clipped |
| Highlight.Slice | assets/js/taxonomy.js:38-39 | `slice(from, to)` is the substring for in-range offsets, and empty when `from` does not come before `to` |
| Highlight.SliceFrom | assets/js/taxonomy.js:40 | `slice(from)` is the suffix for an in-range offset, and empty past the end |
| Highlight.Spliced | assets/js/taxonomy.js:35-52 | the guard and the assembly of line 52 for any markers; `Highlight.NoPairUnchanged`, `Highlight.SplicedRoundTrip` and `Highlight.SplicedAnyOffsets` state its result |
| Highlight.Marked | assets/js/taxonomy.js:52 | the assembly with the `<span>` marker; `Highlight.MarkedInRange` states its result for offsets in range |
| Highlight.HighlightColor | assets/js/taxonomy.js:43-50 | the palette colour of the nearest truthy role, or "#ffc"; `Highlight.HighlightColorFallback` states when the fallback applies |
| Highlight.SpanColor | assets/js/taxonomy.js:43-50 | the while loop up the parent links ends with the palette colour of the nearest truthy role, or "#ffc" |
| Highlight.HighlightSpan | assets/js/taxonomy.js:34-53 | the returned HTML is the text given offsets spliced with the span marker in the node's highlight colour |
| Highlight.NoPairUnchanged | assets/js/taxonomy.js:35 | without a span of exactly two offsets, the text comes back unchanged, whatever the markers |
| Highlight.SplicedRoundTrip | assets/js/taxonomy.js:37-52 | for ordered in-range offsets, the text is split at them, and removing the two markers gives back the text |
| Highlight.SplicedAnyOffsets | assets/js/taxonomy.js:37-52 | for any offsets, once resolved: when they are in order the text is split at them; otherwise the markers are empty and the stretch between them appears twice |
| Highlight.ReversedSpanExample | assets/js/taxonomy.js:37-52 | offsets (3, 1) on "abcd" give "abc", opener, closer, "bcd" |
| Highlight.MarkedInRange | assets/js/taxonomy.js:37-52 | for in-range offsets, the span marker wraps exactly `text[start..end)` |
| Highlight.HighlightColorFallback | assets/js/taxonomy.js:50 | the fallback "#ffc" is used exactly when the nearest role is not a palette name; otherwise the palette colour is used |
| Tooltip.OrEmpty | assets/js/taxonomy.js:134 | `x \|\| ""` is the text when it is truthy, and empty exactly when it is not |
| Tooltip.SectionsOf | assets/js/taxonomy.js:129-148 | the section choice by depth for a record; `Tooltip.SectionsOfByDepth` states it |
| Tooltip.Sections | assets/js/taxonomy.js:129-148 | the sections of one node; `Tooltip.SectionsByDepth` states them |
| Tooltip.ExampleHtml | assets/js/taxonomy.js:142 | the highlighted example; `Tooltip.ExampleMarksSpan` states it for a span in range |
| Tooltip.SectionsOfByDepth | assets/js/taxonomy.js:129-148 | every tooltip starts with the name; the root shows only the name; a band node shows the name and its raw definition, possibly empty; a deeper node has one section per truthy optional field, with definition and conceptual present exactly when their field is truthy and the example last exactly when it is truthy |
| Tooltip.SectionsByDepth | assets/js/taxonomy.js:129-148 | the same statement for a node of the tree: name first; root shows only the name; a band node shows name and raw definition; a deeper node shows definition, conceptual and example exactly when truthy, the example last and equal to `highlightSpan` of the node's own example, span and highlight colour |
| Tooltip.ExampleMarksSpan | assets/js/taxonomy.js:142 | for an in-range span, the tooltip's example is the sentence with exactly the spanned characters wrapped in the coloured marker |
| Styling.FindDepthOneAncestor | assets/js/taxonomy.js:163-164 | the ancestor loop stops at the depth-1 ancestor |
| Styling.BandColor | assets/js/taxonomy.js:160 | `roleColors[d.data.role] || "#999"` for a band node |
| Styling.Fill | assets/js/taxonomy.js:156-169 | the fill rule; `Styling.FillStrokeByDepth`, `Styling.ColorsInherited` and the two child-fill lemmas state its values |
| Styling.Stroke | assets/js/taxonomy.js:170-179 | the stroke rule; `Styling.FillStrokeByDepth` and `Styling.StrokeIsPaletteOrNeutral` state its values |
| Styling.LabelSide | assets/js/taxonomy.js:184-185 | the label offset and anchor; `Styling.LabelSideOfSettled` states them for settled nodes |
| Styling.FillOf | assets/js/taxonomy.js:156-169 | the fill callback computes the fill rule |
| Styling.StrokeOf | assets/js/taxonomy.js:170-179 | the stroke callback computes the stroke rule |
| Styling.FillStrokeByDepth | assets/js/taxonomy.js:156-179 | the root is "#fff" with stroke "#999"; a band node has its palette colour (or "#999") for fill and stroke; a deeper node has its band's stroke, and that stroke lightened by 127 as its fill |
| Styling.ColorsInherited | assets/js/taxonomy.js:156-179 | below depth 2, a node's fill and stroke equal its parent's |
| Styling.StrokeIsPaletteOrNeutral | assets/js/taxonomy.js:170-179 | every stroke is one of the three palette colours or "#999" |
| Styling.ProtagonistChildFill | assets/js/taxonomy.js:156-179 | under a protagonist band, a deeper node has stroke "#1f77b4" and fill "#9ef6ff" |
| Styling.NeutralChildFill | assets/js/taxonomy.js:156-179 | under a band without a known role, a deeper node has stroke "#999" and fill "#7f88ff" |
| Styling.ColorRulesDiffer | assets/js/taxonomy.js:43-50 | in a concrete tree, the circle of an antagonist member of the protagonist band is blue while its tooltip highlight is red |
| Styling.LabelSideOfSettled | assets/js/taxonomy.js:184-185 | in a settled node the label is on the left ("end", -13) exactly when the node has children, and a click does not move it |
| Folding.Toggled | assets/js/taxonomy.js:116-122 | after a click, at most one list is set; children are shown exactly when they were hidden and none were shown; hidden exactly when they were shown |
| Folding.Stashed | assets/js/taxonomy.js:91-94 | after `collapse`, nothing is shown and the hidden list is the shown one if there was one |
| Folding.ToggleTwice | assets/js/taxonomy.js:116-122 | two clicks restore the shown list, and restore the whole state when at most one list was set |
| Folding.SettledIsShapedAndExclusive | assets/js/taxonomy.js:116-122 | a settled node's lists are its own children, and at most one is set |
| Folding.Below | assets/js/taxonomy.js:100 | reachability through shown `children` lists; `Folding.BelowViaChildren` and `Folding.BelowIsAncestor` state it |
| Folding.Visible | assets/js/taxonomy.js:100 | being among `descendants()`: reachable from the root; `Folding.VisibleIffAncestorsShown` states it |
| Folding.VisibleNodes | assets/js/taxonomy.js:100 | the set of visible nodes, which the join order of `Update` must list |
| Folding.Mounted | assets/js/taxonomy.js:86 | the initial fold state of a node; `Folding.MountedVisible` and `Folding.MountedSettled` state it |
| Folding.CollapsedFrom | assets/js/taxonomy.js:90-96 | the effect of collapsing a list of roots; `Folding.CollapseShown`, `Folding.CollapseEachStep` and `Folding.CollapseRootChildren` state it |
| Folding.ToggleKeepsSettled | assets/js/taxonomy.js:116-122 | a click keeps a node settled |
| Folding.BelowIsAncestor | assets/js/taxonomy.js:100 | a node reachable from `d` through shown children lies in `d`'s subtree |
| Folding.BelowFrame | assets/js/taxonomy.js:100 | whether `n` is reachable from `d` depends only on the lists of `d`'s subtree |
| Folding.BelowViaChildren | assets/js/taxonomy.js:100 | `n` is reachable from `d` exactly when `d` shows its children and `n` is reachable from one of them |
| Folding.VisibleIffAncestorsShown | assets/js/taxonomy.js:100 | a node is drawn exactly when every proper ancestor shows its children |
| Folding.ExpandedBelow | assets/js/taxonomy.js:81 | in the fully expanded hierarchy, reachability is being in the subtree |
| Folding.MountedVisible | assets/js/taxonomy.js:81-86 | after mounting, exactly the root and its children are visible |
| Folding.MountedSettled | assets/js/taxonomy.js:81-86 | every node is settled after mounting |
| Folding.ToggleLeaf | assets/js/taxonomy.js:116-122 | clicking a leaf changes nothing |
| Folding.ToggleOutsideSubtree | assets/js/taxonomy.js:116-123 | a click on `d` changes the visibility of neither `d` nor any node outside its subtree |
| Folding.ToggleHidesBelow | assets/js/taxonomy.js:116-118 | folding `d` hides every proper descendant |
| Folding.ToggleShowsChildren | assets/js/taxonomy.js:119-121 | unfolding a visible node makes its children visible |
| Folding.CollapsedShaped | assets/js/taxonomy.js:90-96 | collapsing keeps every list equal to the node's own children |
| Folding.CollapseUnshown | assets/js/taxonomy.js:91 | `collapse` on a node without shown children changes nothing |
| Folding.BelowChildIgnoresParent | assets/js/taxonomy.js:93 | changing a node's lists does not change what is reachable from its children |
| Folding.CollapseShown | assets/js/taxonomy.js:91-95 | stashing `d`, collapsing its children and clearing `d.children` stashes exactly what was reachable from `d` |
| Folding.CollapseEachStep | assets/js/taxonomy.js:93 | one more `forEach(collapse)` step stashes what is reachable from one more child |
| Folding.CollapseRootChildren | assets/js/taxonomy.js:81-86 | collapsing each child of the root in the expanded hierarchy yields the mounted state |
| Reconcile.ClassifyPartition | assets/js/taxonomy.js:108-112 | enter ∪ update is the new key set, update ∪ exit is the old one, and the three sets are pairwise disjoint |
| Reconcile.Classify | assets/js/taxonomy.js:108-112 | the keyed join of old against new keys into enter, update and exit; `Reconcile.ClassifyPartition` and `Reconcile.ClassifyUnique` state it |
| Reconcile.ApplyDiff | assets/js/taxonomy.js:224-227 | removing the exit set and adding the enter set turns the old elements into the new ones |
| Reconcile.ClassifyUnique | assets/js/taxonomy.js:108-112 | any disjoint three-way split satisfying the partition equations is that join |
| Keys.AssignIds | assets/js/taxonomy.js:109 | the counter never goes down |
| Keys.AssignIdsSpec | assets/js/taxonomy.js:109 | old numbers are kept, exactly the old and the joined nodes are numbered, and fresh numbers lie above the old counter and at most at the new one |
| Keys.NumberFresh | assets/js/taxonomy.js:109 | `d.id = ++i` keeps numbers distinct and within the counter |
| Keys.AssignIdsInjective | assets/js/taxonomy.js:109 | after a join, numbers are still distinct and within the counter |
| Keys.AssignIdsOrdered | assets/js/taxonomy.js:109 | along the join order, freshly numbered nodes get increasing numbers |
| Keys.AssignIdsIdempotent | assets/js/taxonomy.js:109 | joining nodes that all have numbers assigns nothing |
| Keys.Image | assets/js/taxonomy.js:237 | the keys of a set of nodes; `Keys.ImageMembers`, `Keys.ImageStable` and `Keys.DiffByNode` state it |
| Keys.ImageMembers | assets/js/taxonomy.js:237 | a key is drawn exactly when some node of the set carries it |
| Keys.ImageStable | assets/js/taxonomy.js:109 | keys of already numbered nodes do not change when more nodes are numbered |
| Keys.DiffByNode | assets/js/taxonomy.js:108-112 | with distinct keys, the join's enter, update and exit sets are the keys of the nodes that appear, stay and disappear |
| Taxonomy.Members | assets/js/taxonomy.js:100 | a node is a member exactly when the order lists it |
| Taxonomy.Assigned | assets/js/taxonomy.js:264-267 | a `forEach` assignment over the order; `Taxonomy.AssignedSpec` states it |
| Taxonomy.Heights | assets/js/taxonomy.js:104 | `d.y = d.depth * 180` for every node |
| Taxonomy.AssignedSpec | assets/js/taxonomy.js:264-267 | a `forEach` assignment over the order overwrites exactly the listed nodes with their values and keeps every other entry |
| Taxonomy.TaxonomyTree.constructor | assets/js/taxonomy.js:81-86 | every node is in its mounted fold state (the root expanded, every band and everything below it collapsed, so exactly the root and the bands are visible), nothing is numbered or drawn yet, the root's previous position is (280, 0), and the widget invariant holds |
| Taxonomy.TaxonomyTree.Collapse | assets/js/taxonomy.js:90-96 | `collapse(d)` stashes every node reachable from `d` and leaves the rest |
| Taxonomy.TaxonomyTree.CollapseEach | assets/js/taxonomy.js:93 | `children.forEach(collapse)` stashes every node reachable from any of the children |
| Taxonomy.TaxonomyTree.Toggle | assets/js/taxonomy.js:116-122 | the click changes only the clicked node's lists, as `Toggled`, and keeps the widget invariant |
| Taxonomy.TaxonomyTree.Layout | assets/js/taxonomy.js:99-105 | x is set from the layout, and y to depth × 180, for exactly the drawn nodes |
| Taxonomy.TaxonomyTree.Number | assets/js/taxonomy.js:108-109 | keys are handed out as `AssignIds` does, stay distinct, and cover the drawn nodes |
| Taxonomy.TaxonomyTree.Join | assets/js/taxonomy.js:108-261 | the page ends up with the keys of the drawn nodes and of their links; the returned joins are enter/update/exit of old against new keys |
| Taxonomy.TaxonomyTree.SavePositions | assets/js/taxonomy.js:264-267 | x0/y0 take the new x/y of exactly the drawn nodes |
| Taxonomy.TaxonomyTree.Reposition | assets/js/taxonomy.js:99-267 | the new coordinates, the saved ones, and the points entering and exiting elements move from and to (the source's old and new positions) |
| Taxonomy.TaxonomyTree.Rejoin | assets/js/taxonomy.js:108-261 | numbering and both joins; old numbers kept, and the node join equals the keys of appearing, staying and disappearing nodes |
| Taxonomy.TaxonomyTree.Update | assets/js/taxonomy.js:98-268 | keeps the widget invariant and states the whole new state: coordinates from the layout and depth, saved positions, keys handed out in join order with old ones kept, the drawn set and page elements, both joins node by node, and the points entering elements start from and exiting ones move to |
| Taxonomy.TaxonomyTree.Click | assets/js/taxonomy.js:115-124 | a click toggles only the clicked node and runs `update(d)`: the drawn set is exactly the nodes visible in the new fold state; coordinates, saved positions, keys and page elements as in `Update`; entering elements start at d's previous saved position; exiting ones go to d's new position (the layout x and depth × 180) when d is drawn; the node join is reported node by node |

## Left out

- Loading the JSON with `d3.json` (line 57) and the error path of that promise: I/O. The hierarchy is a parameter, and its construction by `d3.hierarchy` (line 81) becomes the `Hierarchy.WellFormed` precondition.
- The SVG and tooltip elements, attributes, styles and CSS (lines 60-61, 69-79, 112-113, 154-155, 180-183, 186, 196, 218, 220-221, 229-233, 240-241): DOM output.
- Transitions and durations (lines 65, 126-128, 191-193, 224-233, 250-261): timing. Only each transition's start and end point is modelled, and an exit transition is assumed to have removed its elements before the next `update`.
- The `d3.tree` layout and `links()` (lines 67, 99-101): a library algorithm. The x coordinate of each node and the order of `descendants()` are inputs to `Update`. Only the rule that the order lists exactly the visible nodes, each once, is required. The link set is modelled as one link per drawn non-root node, keyed by its target.
- `diagonal` (lines 270-275): path strings for the links. The model keeps the points they are drawn from and to.
- The tooltip's HTML text and its placement at the mouse position (lines 132-135, 138-143, 146, 149-150). The choice and order of sections and the highlighted example are modelled; the surrounding markup is not.
- `highlightEntity` (lines 27-31): dead code, never called, and it relies on regular expressions.
- Styling.ChildLighten: `Math.round(2.55 * 50)` (line 15) is a floating-point computation. The model uses its double-precision result, 127, as a constant.
- Colors.ParseInt16: does not model parseInt's leading whitespace, sign or `0x` prefix, nor the loss of precision above 2^53. The only colours passed are the palette's six-digit strings and "#999".
- Colors.Palette: does not model a lookup of a role that names an inherited `Object.prototype` property (such as "constructor"), which in JavaScript yields a function instead of a colour.
- Highlight.RelIndex: offsets of `slice` count Unicode code points, whereas JavaScript counts UTF-16 code units; the model agrees with the program only on example text inside the Basic Multilingual Plane (an emoji before the span shifts the highlighted characters).
- Taxonomy.TaxonomyTree.Layout: coordinates are integers, whereas `d3.tree` gives fractional doubles; the model only copies them, so nothing it proves depends on their values.
- The fill and stroke callbacks appear twice with the same bodies (lines 156-179 and 197-217). They are modelled once.
- Highlight.HighlightSpan: computes the colour before slicing, where the source slices first. Both steps are free of side effects, so the order does not change the result.
- Taxonomy.TaxonomyTree.Update: saves positions before the joins, whereas the source saves them last (lines 264-267). The two touch disjoint fields.
- Taxonomy.TaxonomyTree.constructor: requires the root to have children, because `root.children.forEach` (line 86) throws otherwise.
- The page's stylesheet and the statistics scripts of the site: outside this file.
