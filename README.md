# Graph-editing state machine of the layout component

This project models the part of the `Layout` class (`src/components/layout.js`)
that edits the graph. It holds the node list and the link list. It holds the node, link
and composite selection, and the fields of the gesture in progress (`mousedownNode`,
`mouseupNode`, `mousedownLink`). It also holds the one-key latch `lastKeyDown`.
Each mouse and keyboard handler is a method that edits this state. The d3 rendering,
the force simulation and all coordinates are not modelled.

Modules:

- `Wrappers` (`wrappers.dfy`): `Option`. `None` stands for `null`/`undefined`.
- `JsArray` (`js_array.dfy`): the JavaScript array operations the handlers use, on
  sequences: `filter` + `includes` (`removeFromArray`), `indexOf`, and `splice(start, 1)`.
  `splice` follows JavaScript exactly: a negative start counts back from the end.
- `Graph` (`graph.dfy`): `Node` and `Link` are classes, because their flags change in
  place and the selection fields alias them. A node's `id` and a link's `source` and
  `target` are never reassigned, so they are `const`. The module also has the
  link-list invariant (`WellFormed`: the lower id is at the source, and there is one
  link per pair), the lookup `FindLink`, the incident-link filters, removal of nodes by
  id, and `Drag`, which gives a link's arrowheads after a drag.
- `LayoutModel` (`layout.dfy`): the `Layout` class and its handlers. `Valid()` is the
  invariant every handler keeps:
  - node ids are unique over every node added in the session (ghost `created`);
  - the drag origin is one of those nodes;
  - the link list is `WellFormed`;
  - a node and a link are never selected at once.
- `Scenarios` (`scenarios.dfy`): event sequences built from the handlers' contracts.
  They cover dragging both ways over a pair, then L, then Delete; pressing R twice;
  holding R; and deleting a composite.

Behaviour of the code that the model keeps as written:

- After a mouse-up appends a NEW link, `selectedLink` is the failed lookup's result
  (`undefined`, modelled as `null`). The new link is not selected.
- Deleting a composite filters `nodes` by id and prunes no links. Links of removed nodes
  stay in `links` (`Scenarios.DeleteComponentLeavesLinks`).
- The child loop runs to `i <= children.length`. The extra step reads `undefined`, which
  matches no node.
- The latch is set before the "nothing selected" early return.
- Delete with only a node selected removes nothing, but it clears `selectedNode`.
- Delete uses `links.splice(links.indexOf(selectedLink), 1)`. If the selected link is no
  longer in `links` (after `spliceLinksForNode` removed it), `indexOf` gives -1 and the
  LAST link is removed (`JsArray.SpliceMissingDropsLast`).
- A drag over an existing pair only ever SETS an arrowhead. It never clears one.
- No handler in this file clears `selectedComponent`. It is set from outside, so only
  node/link exclusivity is an invariant.

## Model

| member | source | states |
|---|---|---|
| `LayoutModel.Layout.constructor` | src/components/layout.js:9-32 | empty graph, nothing selected, no gesture, latch released; the invariant holds. The null fields of the constructor and the empty `links`/`nodes` and cleared selection that `draw()` sets (layout.js:367-369 and 439-445) together give this state |
| `LayoutModel.Layout.ResetMouseVars` | src/components/layout.js:38-43 | the three gesture fields become null; nothing else changes |
| `LayoutModel.Layout.LinkMouseDown` | src/components/layout.js:67-78 | with ctrl: no change; otherwise the link becomes the gesture link, its selection toggles (null if it was selected) and the node selection is cleared |
| `LayoutModel.Layout.NodeMouseDown` | src/components/layout.js:120-136 | with ctrl: no change; otherwise the node becomes the drag origin, its selection toggles and the link selection is cleared |
| `LayoutModel.Layout.NodeMouseUp` | src/components/layout.js:137-172 | no origin: no change; drag to self: no link change and all gesture fields null; otherwise the canonical pair has `source.id < target.id`, an existing link keeps the list length and gets only the arrowhead of the drag direction (others untouched), a new link is appended with exactly that one arrowhead, selected link is the reused link or null, node selection cleared, invariant kept |
| `LayoutModel.Layout.AddOrUpdateLink` | src/components/layout.js:155-166 | lookup of the pair, then reuse (set one flag) or append a fresh link; returns the found link or null; one-link-per-pair and canonical order are preserved |
| `LayoutModel.Layout.NodeDblClick` | src/components/layout.js:173-178 | the node is unpinned: `fixed` false, `fx`/`fy` null; nothing else of it changes |
| `LayoutModel.Layout.CanvasMouseDown` | src/components/layout.js:234-247 | the new node is appended iff no ctrl, no node gesture and no link gesture; otherwise nothing changes |
| `LayoutModel.Layout.MouseUp` | src/components/layout.js:260-275 | all gesture fields become null, whatever the state |
| `LayoutModel.Layout.KeyUp` | src/components/layout.js:277-279 | the latch is released |
| `LayoutModel.Layout.KeyDown` | src/components/layout.js:285-341 | latched: nothing changes; otherwise the latch takes the key even with nothing selected; with a selection, Delete removes the selected link (or the composite's nodes) and clears node and link selection, B/L/R set the link's arrowheads as `KeyArrows`, R toggles the selected node's self-loop; nothing else changes |
| `LayoutModel.Layout.DeleteSelected` | src/components/layout.js:294-312 | the selected link is spliced out at its `indexOf`, else the selected composite's ids are removed from `nodes`; node and link selection become null |
| `LayoutModel.Layout.RemoveComponentNodes` | src/components/layout.js:297-305 | after the child loop (one step past the end) and the master filter, `nodes` is the old list without every node whose id is the master or a child |
| `LayoutModel.Layout.SpliceLinksForNode` | src/components/layout.js:343-348 | after one splice per incident link, `links` is exactly the old links not touching the node, in order; invariant kept |
| `LayoutModel.KeyArrows` | src/components/layout.js:313-339 | B gives both arrowheads, L left only, R right only unless a node is selected, other keys leave them |
| `LayoutModel.KeyArrowsIdempotent` | src/components/layout.js:313-337 | the direction commands overwrite: a command applied twice equals once |
| `JsArray.RemoveFromArray` | src/components/layout.js:281-283 | an element is in the result iff it is in `original` and not in `remove`; never longer |
| `JsArray.RemoveFromArrayConcat` | src/components/layout.js:281-283 | the filter distributes over concatenation, so survivors keep their relative order |
| `JsArray.RemoveFromArrayNothing` | src/components/layout.js:281-283 | with nothing of `original` in `remove`, the result is `original` |
| `JsArray.RemoveFromArrayTwice` | src/components/layout.js:343-348 | removing `a` and then `b` equals removing `a + b` |
| `JsArray.RemoveFromArrayDistinct` | src/components/layout.js:343-348 | a filtered repetition-free list stays repetition-free |
| `JsArray.IndexOf` | src/components/layout.js:296 | -1 iff absent; otherwise the position of the first occurrence |
| `JsArray.SpliceStart` | src/components/layout.js:296 | the index `splice` starts at: a start within `0..len` is kept, one past the end becomes `len`, a negative start counts back from the end, and one before the beginning becomes 0 |
| `JsArray.SpliceOne` | src/components/layout.js:296 | one element fewer at the normalised start when it is in range (negative start counts from the end), unchanged otherwise; the rest shift down in order |
| `JsArray.SpliceOneDistinct` | src/components/layout.js:296 | splicing keeps a list repetition-free |
| `JsArray.SpliceOneSubset` | src/components/layout.js:296 | splicing adds no element |
| `JsArray.SpliceInRange` | src/components/layout.js:296 | `splice(i, 1)` with `i` in range takes out exactly the element at `i` |
| `JsArray.RemoveFromArrayOnce` | src/components/layout.js:343-348 | filtering out an element that occurs once joins the parts before and after it |
| `JsArray.SpliceIndexOf` | src/components/layout.js:296 | `splice(indexOf(x), 1)` on a repetition-free list holding `x` removes exactly `x`, keeps the others in order, and shortens the list by one |
| `JsArray.SpliceMissingDropsLast` | src/components/layout.js:296 | `splice(indexOf(x), 1)` with `x` absent removes the last element |
| `Graph.Link.constructor` | src/components/layout.js:165 | a link record with the given endpoints and arrowheads |
| `Graph.WellFormedDistinct` | src/components/layout.js:161-165 | a list with one link per pair holds no link object twice |
| `Graph.WellFormedUnordered` | src/components/layout.js:156-159 | with canonical order, no two links join the same two nodes either way round |
| `Graph.WellFormedSubset` | src/components/layout.js:294-296 | any repetition-free selection from a well-formed link list is well formed |
| `Graph.FindLink` | src/components/layout.js:161 | the first position whose link joins `source` to `target`, or the length when none does |
| `Graph.FindLinkOnly` | src/components/layout.js:161-165 | in a well-formed list no other link joins that pair |
| `Graph.Incident` | src/components/layout.js:344 | exactly the links with the node as source or target |
| `Graph.IncidentDistinct` | src/components/layout.js:344-347 | the incident links of a repetition-free list are repetition-free |
| `Graph.WithoutIncident` | src/components/layout.js:343-348 | exactly the links not touching the node; none left has the node at either end |
| `Graph.WithoutIncidentConcat` | src/components/layout.js:343-348 | the remaining links keep their relative order |
| `Graph.RemoveIncident` | src/components/layout.js:343-348 | removing a list of exactly the incident links leaves exactly the non-incident links |
| `Graph.WithoutIds` | src/components/layout.js:298-305 | a node is kept iff its id is not among the ids |
| `Graph.WithoutIdsNothing` | src/components/layout.js:298-302 | removing ids no node has changes nothing |
| `Graph.WithoutIdsAll` | src/components/layout.js:298-305 | removing every id present empties the list |
| `Graph.WithoutIdsConcat` | src/components/layout.js:298-305 | the remaining nodes keep their relative order |
| `Graph.WithoutIdsTwice` | src/components/layout.js:298-305 | successive id filters equal one filter by all their ids |
| `Graph.ComponentIds` | src/components/layout.js:297-305 | the ids a composite delete removes: the master and every child |
| `Graph.FilterId` | src/components/layout.js:299-305 | a node survives exactly when it was in the list and its id differs from `x`; an `undefined` `x` keeps every node |
| `Graph.ChildAt` | src/components/layout.js:298-300 | `children[i]` is a child id exactly when `i` is in range, and then it is the child at `i`; past the end it is `undefined` |
| `Graph.Drag` | src/components/layout.js:157-165 | `right` holds iff some drag went from the lower id or it was already set; `left` likewise for the higher id |
| `Graph.DragNew` | src/components/layout.js:157-165 | a new link has exactly one arrowhead; `right` iff the drag started at the lower id |
| `Graph.DragBothWays` | src/components/layout.js:161-165 | a drag each way over one pair gives both arrowheads |
| `Graph.DragMonotone` | src/components/layout.js:161-163 | repeating a drag changes nothing, and no arrowhead is ever cleared |
| `Scenarios.TwoNodes` | src/components/layout.js:234-247 | two canvas clicks give a graph of nodes 0 and 1 with no links |
| `Scenarios.DragLowToHigh` | src/components/layout.js:120-172 | dragging 0 onto 1 gives one link {0→1, right only}; the bubbled canvas mouse-down adds no node |
| `Scenarios.DragHighToLow` | src/components/layout.js:155-172 | dragging back reuses that link, now pointing both ways, and selects it |
| `Scenarios.LeftThenDelete` | src/components/layout.js:294-327 | L makes the selected link left only; Delete leaves no links and no selection |
| `Scenarios.DragBothWaysThenEdit` | src/components/layout.js:137-172 | the whole two-node walk-through: one link throughout, arrowheads (false,true), then (true,true), then (true,false), then deleted |
| `Scenarios.PressRTwice` | src/components/layout.js:329-332 | R pressed and released twice restores the node's self-loop flag |
| `Scenarios.HoldR` | src/components/layout.js:285-289 | a held R (repeated key-downs, one key-up) toggles the self-loop once |
| `Scenarios.ThreeNodes` | src/components/layout.js:234-247 | three canvas clicks give nodes 5, 6 and 7 |
| `Scenarios.Composite` | src/components/layout.js:137-172 | nodes 5, 6, 7 with one link 5→6 |
| `Scenarios.DeleteComponentLeavesLinks` | src/components/layout.js:297-306 | deleting composite {5; 6, 7} removes all three nodes but keeps the link, whose endpoints are no longer nodes |

## Left out

- Rendering in `restart` (layout.js:46-207): d3 data joins and SVG classes, styles and transforms. So are the `mouseover`/`mouseout` enlargement (110-119) and the drag line in `mousedown`, `mousemove` and `mouseup` (130-133, 141-143, 249-258, 261-267). These only change the display.
- `tick` (210-232): edge endpoint geometry in floating point.
- The force simulation and its `alphaTarget` restarts (202-206, 375-380): an external physics library.
- The drag gesture handlers (383-401): they set float pin coordinates and `fixed` while a node is dragged. The model keeps the `fixed`, `fx` and `fy` fields and only double-click's unpinning.
- Node creation in `Oscil.addCircle` and the `Oscil`/`Buzz` extensions (180-195, 244-245): their code is not part of this model.
- `LayoutModel.Layout.CanvasMouseDown`: the new node is a parameter, and its id must be one not used before in the session. Node ids are assumed unique over the session and never reused; id assignment happens in `addCircle`, which is not modelled. The new node stands in for `addCircle`'s, and the mouse position is not modelled.
- `LayoutModel.Layout.NodeMouseDown`: the node must be in `nodes`, because the handler is only bound to circles drawn for the current nodes. `LayoutModel.Layout.NodeMouseUp` requires the same, for the same reason.
- Node fields `x`, `y`, `type` and `isChild`: they are only used for rendering.
- The DOM event object: the ctrl key and the key code are parameters.
- `draw()` (350-460): canvas, marker and event-binding setup. The constructor gives the state it leaves (empty lists, nothing selected, latch released).
- `csound-nodeeditor-webpack/src/components/nodeEditor/addComponent.js`: a wrapper over the dataflow library. `csound-nodeeditor-webpack/src/main.js`: application bootstrap.
