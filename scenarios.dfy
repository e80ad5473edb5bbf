/**
 * Event sequences applied to the layout state machine, as a user would
 * produce them, and what the handlers' contracts let a caller conclude about them.
 */
module Scenarios {
  import opened Wrappers
  import opened Graph
  import opened LayoutModel

  /** A fresh editor holding two nodes, ids 0 and 1, created by clicks on the canvas. */
  method TwoNodes() returns (g: Layout, a: Node, b: Node)
    ensures fresh(g) && g.Valid()
    ensures g.nodes == [a, b] && a.id == 0 && b.id == 1 && g.links == [] && g.created == {a, b}
    ensures g.mousedownNode == null && g.mousedownLink == null && g.lastKeyDown == NoKey
    ensures g.selectedNode == null && g.selectedLink == null && g.selectedComponent == None
  {
    g := new Layout();
    a := new Node(0, false);
    b := new Node(1, false);
    g.CanvasMouseDown(false, a);
    g.MouseUp();
    g.CanvasMouseDown(false, b);
    g.MouseUp();
  }

  /**
   * On a graph of two unlinked nodes, dragging the lower-id node onto the
   * other makes one link pointing right. The canvas mouse-down that the node
   * mouse-down bubbles into adds no node.
   */
  method DragLowToHigh(g: Layout, a: Node, b: Node) returns (link: Link)
    requires g.Valid() && g.nodes == [a, b] && a.id < b.id && g.links == [] && g.created == {a, b}
    requires g.mousedownNode == null && g.mousedownLink == null
    modifies g
    ensures g.Valid() && g.nodes == [a, b] && g.links == [link] && fresh(link) && g.created == {a, b}
    ensures link.source == a && link.target == b && link.Heads() == Arrows(false, true)
    ensures g.mousedownNode == null && g.mousedownLink == null
    ensures g.lastKeyDown == old(g.lastKeyDown) && g.selectedComponent == old(g.selectedComponent)
  {
    g.NodeMouseDown(a, false);
    var spare := new Node(b.id + 1, false);
    g.CanvasMouseDown(false, spare);
    assert g.nodes == [a, b];
    assert FindLink(g.links, a, b) == 0;
    g.NodeMouseUp(b);
    g.MouseUp();
    link := g.links[0];
  }

  /**
   * Dragging back from the higher-id node reuses the pair's one link, makes
   * it point both ways and selects it. Here too the bubbled canvas
   * mouse-down adds no node.
   */
  method DragHighToLow(g: Layout, a: Node, b: Node, link: Link)
    requires g.Valid() && g.nodes == [a, b] && g.links == [link] && link.source == a && link.target == b
    requires g.created == {a, b} && a.id < b.id
    requires g.mousedownNode == null && g.mousedownLink == null && link.Heads() == Arrows(false, true)
    modifies g, link
    ensures g.Valid() && g.links == [link] && link.Heads() == Arrows(true, true)
    ensures g.selectedLink == link && g.selectedNode == null
    ensures g.lastKeyDown == old(g.lastKeyDown)
  {
    g.NodeMouseDown(b, false);
    var spare := new Node(b.id + 1, false);
    g.CanvasMouseDown(false, spare);
    assert g.nodes == [a, b];
    assert FindLink(g.links, a, b) == 0;
    g.NodeMouseUp(a);
    g.MouseUp();
  }

  /**
   * With the one link of the graph selected, L (pressed and released) makes
   * it point left only, and Delete then removes it and clears the selection.
   */
  method LeftThenDelete(g: Layout, link: Link) returns (afterL: Arrows)
    requires g.Valid() && g.links == [link] && g.selectedLink == link && g.lastKeyDown == NoKey
    modifies g, link
    ensures afterL == Arrows(true, false)
    ensures g.Valid() && g.links == [] && g.selectedLink == null && g.selectedNode == null
  {
    g.KeyDown(KeyL);
    g.KeyUp();
    assert g.links == [link] && g.selectedLink == link && g.lastKeyDown == NoKey;
    afterL := link.Heads();
    g.KeyDown(DeleteKey);
    assert g.links == [];
    g.KeyUp();
  }

  /** The two-node walk-through: drag there and back, then L, then Delete. */
  method DragBothWaysThenEdit() returns (afterFirst: Arrows, afterSecond: Arrows, afterL: Arrows,
                                         linksAfterDrags: nat, linksAfterDelete: nat)
    ensures afterFirst == Arrows(false, true)
    ensures afterSecond == Arrows(true, true)
    ensures afterL == Arrows(true, false)
    ensures linksAfterDrags == 1 && linksAfterDelete == 0
  {
    var g, a, b := TwoNodes();
    var link := DragLowToHigh(g, a, b);
    afterFirst := link.Heads();
    DragHighToLow(g, a, b, link);
    linksAfterDrags := |g.links|;
    afterSecond := link.Heads();
    afterL := LeftThenDelete(g, link);
    linksAfterDelete := |g.links|;
  }

  /** Pressing and releasing R twice with a node selected restores its self-loop flag. */
  method PressRTwice(g: Layout)
    requires g.Valid() && g.selectedNode != null && g.lastKeyDown == NoKey
    modifies g, g.selectedNode
    ensures g.Valid() && g.selectedNode == old(g.selectedNode)
    ensures g.selectedNode.reflexive == old(g.selectedNode.reflexive)
  {
    g.KeyDown(KeyR);
    g.KeyUp();
    g.KeyDown(KeyR);
    g.KeyUp();
  }

  /** Holding R down toggles the selected node's self-loop flag once, however often the key repeats. */
  method HoldR(g: Layout)
    requires g.Valid() && g.selectedNode != null && g.lastKeyDown == NoKey
    modifies g, g.selectedNode
    ensures g.Valid() && g.selectedNode == old(g.selectedNode)
    ensures g.selectedNode.reflexive == !old(g.selectedNode.reflexive)
  {
    g.KeyDown(KeyR);
    g.KeyDown(KeyR);
    g.KeyDown(KeyR);
    g.KeyUp();
  }

  /**
   * A composite with master 5 and children 6 and 7, the master linked to
   * child 6. Deleting the selected composite removes the three nodes but
   * leaves the link, whose endpoints are then no longer in the graph.
   */
  method DeleteComponentLeavesLinks() returns (nodesLeft: nat, linksLeft: nat, dangling: bool)
    ensures nodesLeft == 0 && linksLeft == 1 && dangling
  {
    var g, m, c1, c2 := Composite();
    var link := g.links[0];
    g.selectedComponent := Some(Component(5, [6, 7]));
    WithoutIdsAll(g.nodes, ComponentIds(Component(5, [6, 7])));
    g.KeyDown(DeleteKey);
    nodesLeft := |g.nodes|;
    linksLeft := |g.links|;
    dangling := link in g.links && link.source !in g.nodes && link.target !in g.nodes;
  }

  /** A fresh editor holding nodes 5, 6 and 7 and one link from 5 to 6. */
  method Composite() returns (g: Layout, m: Node, c1: Node, c2: Node)
    ensures fresh(g) && g.Valid()
    ensures g.nodes == [m, c1, c2] && m.id == 5 && c1.id == 6 && c2.id == 7
    ensures |g.links| == 1 && g.links[0].source == m && g.links[0].target == c1
    ensures g.lastKeyDown == NoKey && g.selectedNode == null && g.selectedLink == null
  {
    g, m, c1, c2 := ThreeNodes();
    g.NodeMouseDown(m, false);
    assert g.links == [] && g.mousedownNode == m && m.id < c1.id;
    g.NodeMouseUp(c1);
    g.MouseUp();
  }

  /** A fresh editor holding nodes 5, 6 and 7, created by clicks on the canvas. */
  method ThreeNodes() returns (g: Layout, m: Node, c1: Node, c2: Node)
    ensures fresh(g) && g.Valid()
    ensures g.nodes == [m, c1, c2] && m.id == 5 && c1.id == 6 && c2.id == 7 && g.links == []
    ensures g.mousedownNode == null && g.mousedownLink == null && g.lastKeyDown == NoKey
    ensures g.selectedNode == null && g.selectedLink == null
  {
    g := new Layout();
    m := new Node(5, false);
    c1 := new Node(6, false);
    c2 := new Node(7, false);
    g.CanvasMouseDown(false, m);
    assert g.created == {m};
    g.CanvasMouseDown(false, c1);
    assert g.created == {m, c1};
    g.CanvasMouseDown(false, c2);
  }
}
