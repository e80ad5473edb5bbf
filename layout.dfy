/**
 * The editing state machine of the force-directed layout component: the node
 * and link lists, the selection, the transient gesture fields, the one-key
 * latch, and the mouse and keyboard handlers that edit them. Rendering,
 * the force simulation and positions are not modelled.
 */
module LayoutModel {
  import opened Wrappers
  import opened JsArray
  import opened Graph

  /** Key codes the key-down handler dispatches on. */
  const DeleteKey := 46
  const KeyB := 66
  const KeyL := 76
  const KeyR := 82

  /** The value of the key latch while no key is held. */
  const NoKey := -1

  class Layout {
    var nodes: seq<Node>
    var links: seq<Link>
    var selectedNode: Node?
    var selectedLink: Link?
    /** Set from outside this component: `None` is `null`. */
    var selectedComponent: Option<Component>
    var mousedownNode: Node?
    var mouseupNode: Node?
    var mousedownLink: Link?
    /** The key code of the key being held, or `NoKey`. */
    var lastKeyDown: int
    /** Every node ever added in this session (node ids are never reused). */
    ghost var created: set<Node>

    /**
     * The component invariant: node ids are unique over the session, the
     * gesture origin is one of the session's nodes, the link list is
     * canonical with one link per pair, and a node and a link are never
     * selected at once.
     */
    ghost predicate Valid()
      reads this
    {
      && (forall n :: n in nodes ==> n in created)
      && (mousedownNode != null ==> mousedownNode in created)
      && (forall a, b :: a in created && b in created && a != b ==> a.id != b.id)
      && WellFormed(links)
      && (selectedNode == null || selectedLink == null)
    }

    /** The state right after the canvas is set up: empty graph, nothing selected, no key held. */
    constructor ()
      ensures Valid()
      ensures nodes == [] && links == [] && created == {}
      ensures selectedNode == null && selectedLink == null && selectedComponent == None
      ensures mousedownNode == null && mouseupNode == null && mousedownLink == null
      ensures lastKeyDown == NoKey
    {
      nodes := [];
      links := [];
      selectedNode := null;
      selectedLink := null;
      selectedComponent := None;
      mousedownNode := null;
      mouseupNode := null;
      mousedownLink := null;
      lastKeyDown := NoKey;
      created := {};
    }

    /** Clears the three transient gesture fields. */
    method ResetMouseVars()
      requires Valid()
      modifies this`mousedownNode, this`mouseupNode, this`mousedownLink
      ensures Valid()
      ensures mousedownNode == null && mouseupNode == null && mousedownLink == null
    {
      mousedownNode := null;
      mouseupNode := null;
      mousedownLink := null;
    }

    /**
     * Mouse-down on a link: unless ctrl is held, it becomes the gesture's
     * link, its selection is toggled and the node selection is cleared.
     */
    method LinkMouseDown(d: Link, ctrlKey: bool)
      requires Valid()
      modifies this`mousedownLink, this`selectedLink, this`selectedNode
      ensures Valid()
      ensures ctrlKey ==>
        mousedownLink == old(mousedownLink) && selectedLink == old(selectedLink) && selectedNode == old(selectedNode)
      ensures !ctrlKey ==>
        mousedownLink == d && selectedNode == null && selectedLink == (if old(selectedLink) == d then null else d)
    {
      if ctrlKey { return; }
      mousedownLink := d;
      selectedLink := if mousedownLink == selectedLink then null else mousedownLink;
      selectedNode := null;
    }

    /**
     * Mouse-down on a node `d` of the graph: unless ctrl is held, it becomes
     * the drag origin, its selection is toggled and the link selection is
     * cleared.
     */
    method NodeMouseDown(d: Node, ctrlKey: bool)
      requires Valid() && d in nodes
      modifies this`mousedownNode, this`selectedNode, this`selectedLink
      ensures Valid()
      ensures ctrlKey ==>
        mousedownNode == old(mousedownNode) && selectedNode == old(selectedNode) && selectedLink == old(selectedLink)
      ensures !ctrlKey ==>
        mousedownNode == d && selectedLink == null && selectedNode == (if old(selectedNode) == d then null else d)
    {
      if ctrlKey { return; }
      mousedownNode := d;
      selectedNode := if mousedownNode == selectedNode then null else mousedownNode;
      selectedLink := null;
    }

    /**
     * Adds a link from `source` to `target` to the graph, or updates the one
     * there: the existing link for the pair gets the arrowhead the drag
     * direction asks for, otherwise a new link with that one arrowhead is
     * appended. Returns the existing link, or `null` (the source's failed
     * lookup, `undefined`) when a new one was appended.
     */
    method AddOrUpdateLink(source: Node, target: Node, isRight: bool) returns (link: Link?)
      requires Valid() && source.id < target.id
      modifies this`links, links
      ensures Valid()
      ensures var i := FindLink(old(links), source, target);
        && (i < |old(links)| ==>
              && links == old(links)
              && link == links[i]
              && links[i].Heads() == Drag(Some(old(links[i].Heads())), isRight)
              && forall j :: 0 <= j < |links| && j != i ==> unchanged(links[j]))
        && (i == |old(links)| ==>
              && |links| == |old(links)| + 1 && links[..i] == old(links)
              && fresh(links[i]) && links[i].source == source && links[i].target == target
              && links[i].Heads() == Drag(None, isRight)
              && link == null
              && unchanged(old(links)))
    {
      var i := FindLink(links, source, target);
      if i < |links| {
        link := links[i];
        if isRight { link.right := true; } else { link.left := true; }
      } else {
        link := null;
        var added := new Link(source, target, !isRight, isRight);
        links := links + [added];
        assert WellFormed(links) by {
          forall j | 0 <= j < |links| - 1 ensures !SamePair(links[j], added) {
            assert links[j] == old(links)[j];
          }
        }
      }
    }

    /**
     * Mouse-up on a node `d` of the graph. Without a drag origin nothing
     * happens; on the origin itself the gesture is cancelled. Otherwise the
     * pair is ordered by id (lower id at the source) and the link between
     * them is added or updated (`AddOrUpdateLink`); what that returns becomes
     * the selected link, and the node selection is cleared.
     */
    method NodeMouseUp(d: Node)
      requires Valid() && d in nodes
      modifies this`mouseupNode, this`mousedownNode, this`mousedownLink
      modifies this`links, this`selectedLink, this`selectedNode, links
      ensures Valid()
      // no drag in progress
      ensures old(mousedownNode) == null ==>
        && mouseupNode == old(mouseupNode) && mousedownNode == null && mousedownLink == old(mousedownLink)
        && links == old(links) && selectedLink == old(selectedLink) && selectedNode == old(selectedNode)
        && unchanged(old(links))
      // drag to self
      ensures old(mousedownNode) == d ==>
        && mouseupNode == null && mousedownNode == null && mousedownLink == null
        && links == old(links) && selectedLink == old(selectedLink) && selectedNode == old(selectedNode)
        && unchanged(old(links))
      // drag to another node: the link for the canonical pair
      ensures old(mousedownNode) != null && old(mousedownNode) != d ==>
        var md := old(mousedownNode);
        var isRight := md.id < d.id;
        var source := if isRight then md else d;
        var target := if isRight then d else md;
        var i := FindLink(old(links), source, target);
        && source.id < target.id
        && mouseupNode == d && mousedownNode == md && mousedownLink == old(mousedownLink)
        && selectedNode == null
        && (i < |old(links)| ==>
              && links == old(links)
              && selectedLink == links[i]
              && links[i].Heads() == Drag(Some(old(links[i].Heads())), isRight)
              && forall j :: 0 <= j < |links| && j != i ==> unchanged(links[j]))
        && (i == |old(links)| ==>
              && |links| == |old(links)| + 1 && links[..i] == old(links)
              && fresh(links[i]) && links[i].source == source && links[i].target == target
              && links[i].Heads() == Drag(None, isRight)
              && selectedLink == null
              && unchanged(old(links)))
    {
      if mousedownNode == null { return; }
      mouseupNode := d;
      if mouseupNode == mousedownNode {
        ResetMouseVars();
        return;
      }
      var isRight := mousedownNode.id < mouseupNode.id;
      var source := if isRight then mousedownNode else mouseupNode;
      var target := if isRight then mouseupNode else mousedownNode;
      assert mousedownNode == old(mousedownNode) && links == old(links);
      var link := AddOrUpdateLink(source, target, isRight);
      selectedLink := link;
      selectedNode := null;
    }

    /** Double-click on a node: it is unpinned. */
    method NodeDblClick(d: Node)
      modifies d`fixed, d`fx, d`fy
      ensures !d.fixed && d.fx == None && d.fy == None
    {
      d.fixed := false;
      d.fx := None;
      d.fy := None;
    }

    /**
     * Mouse-down on the canvas. Unless ctrl is held or a node or link gesture
     * is in progress, the node that the node factory made is appended; that
     * node's id is one not used before in the session.
     */
    method CanvasMouseDown(ctrlKey: bool, n: Node)
      requires Valid()
      requires forall m :: m in created ==> m.id != n.id
      modifies this`nodes, this`created
      ensures Valid()
      ensures var adds := !(ctrlKey || old(mousedownNode) != null || old(mousedownLink) != null);
        && nodes == (if adds then old(nodes) + [n] else old(nodes))
        && created == (if adds then old(created) + {n} else old(created))
    {
      if ctrlKey || mousedownNode != null || mousedownLink != null { return; }
      nodes := nodes + [n];
      created := created + {n};
    }

    /** Mouse-up anywhere: the gesture ends and its transient fields are cleared. */
    method MouseUp()
      requires Valid()
      modifies this`mousedownNode, this`mouseupNode, this`mousedownLink
      ensures Valid()
      ensures mousedownNode == null && mouseupNode == null && mousedownLink == null
    {
      ResetMouseVars();
    }

    /** Key-up: the latch is released. */
    method KeyUp()
      requires Valid()
      modifies this`lastKeyDown
      ensures Valid()
      ensures lastKeyDown == NoKey
    {
      lastKeyDown := NoKey;
    }

    /** Something is selected: a node, a link or a composite. */
    predicate AnySelected()
      reads this
    {
      selectedNode != null || selectedLink != null || selectedComponent.Some?
    }

    /** A key-down is acted on: no key is latched and something is selected. */
    predicate Acts()
      reads this
    {
      lastKeyDown == NoKey && AnySelected()
    }

    /**
     * Key-down. While a key is latched it is ignored entirely. Otherwise the
     * key is latched, even when nothing is selected, and with a selection:
     * Delete removes the selected link by `splice(indexOf(link), 1)`, or else
     * the selected composite's children and master from the node list
     * (leaving their links in place), and clears the node and link selection;
     * B, L and R set the selected link's arrowheads, and R instead toggles
     * the selected node's self-loop when a node is selected. Other keys do
     * nothing.
     */
    method KeyDown(keyCode: int)
      requires Valid()
      modifies this`lastKeyDown, this`nodes, this`links, this`selectedLink, this`selectedNode
      modifies selectedNode, selectedLink
      ensures Valid()
      ensures lastKeyDown == if old(lastKeyDown) == NoKey then keyCode else old(lastKeyDown)
      ensures nodes ==
        if old(Acts()) && keyCode == DeleteKey && old(selectedLink) == null && old(selectedComponent).Some?
        then WithoutIds(old(nodes), ComponentIds(old(selectedComponent).value))
        else old(nodes)
      ensures links ==
        if old(Acts()) && keyCode == DeleteKey && old(selectedLink) != null
        then SpliceOne(old(links), IndexOf(old(links), old(selectedLink)))
        else old(links)
      ensures old(Acts()) && keyCode == DeleteKey ==> selectedNode == null && selectedLink == null
      ensures !(old(Acts()) && keyCode == DeleteKey) ==>
        selectedNode == old(selectedNode) && selectedLink == old(selectedLink)
      ensures old(selectedLink) != null ==>
        old(selectedLink).Heads() ==
          if old(Acts()) then KeyArrows(keyCode, old(selectedNode) != null, old(selectedLink.Heads()))
          else old(selectedLink.Heads())
      ensures old(selectedNode) != null ==>
        old(selectedNode).reflexive == (old(selectedNode.reflexive) != (old(Acts()) && keyCode == KeyR))
      ensures old(selectedNode) != null ==> unchanged(old(selectedNode)`fixed, old(selectedNode)`fx, old(selectedNode)`fy)
    {
      if lastKeyDown != NoKey { return; }
      lastKeyDown := keyCode;
      if selectedNode == null && selectedLink == null && selectedComponent.None? { return; }

      if keyCode == DeleteKey {
        DeleteSelected();
      } else if keyCode == KeyB {
        if selectedLink != null {
          selectedLink.left := true;
          selectedLink.right := true;
        }
      } else if keyCode == KeyL {
        if selectedLink != null {
          selectedLink.left := true;
          selectedLink.right := false;
        }
      } else if keyCode == KeyR {
        if selectedNode != null {
          selectedNode.reflexive := !selectedNode.reflexive;
        } else if selectedLink != null {
          selectedLink.left := false;
          selectedLink.right := true;
        }
      }
    }

    /**
     * The Delete command on a selection: the selected link is removed by
     * `splice(indexOf(link), 1)`; failing that, the selected composite's nodes
     * are removed (`RemoveComponentNodes`). Either way the node and link
     * selection is cleared.
     */
    method DeleteSelected()
      requires Valid()
      modifies this`nodes, this`links, this`selectedLink, this`selectedNode
      ensures Valid()
      ensures links ==
        if old(selectedLink) != null then SpliceOne(old(links), IndexOf(old(links), old(selectedLink)))
        else old(links)
      ensures nodes ==
        if old(selectedLink) == null && old(selectedComponent).Some?
        then WithoutIds(old(nodes), ComponentIds(old(selectedComponent).value))
        else old(nodes)
      ensures selectedLink == null && selectedNode == null
    {
      if selectedLink != null {
        var rest := SpliceOne(links, IndexOf(links, selectedLink));
        SpliceOneDistinct(links, IndexOf(links, selectedLink));
        SpliceOneSubset(links, IndexOf(links, selectedLink));
        WellFormedDistinct(links);
        WellFormedSubset(links, rest);
        links := rest;
      } else if selectedComponent.Some? {
        RemoveComponentNodes(selectedComponent.value);
      }
      selectedLink := null;
      selectedNode := null;
    }

    /**
     * Removes a composite's nodes: one id filter per child, the loop running
     * one position past the last child (where the child id is `undefined`
     * and matches no node), then one for the master. Links are left as they
     * are, so links of removed nodes remain.
     */
    method RemoveComponentNodes(c: Component)
      requires Valid()
      modifies this`nodes
      ensures Valid()
      ensures nodes == WithoutIds(old(nodes), ComponentIds(c))
    {
      WithoutIdsNothing(nodes, []);
      var i := 0;
      while i <= |c.children|
        invariant 0 <= i <= |c.children| + 1
        invariant i <= |c.children| ==> nodes == WithoutIds(old(nodes), c.children[..i])
        invariant i == |c.children| + 1 ==> nodes == WithoutIds(old(nodes), c.children)
      {
        if i < |c.children| {
          WithoutIdsTwice(old(nodes), c.children[..i], [c.children[i]]);
          assert c.children[..i] + [c.children[i]] == c.children[..i + 1];
        } else {
          assert c.children[..i] == c.children;
        }
        nodes := FilterId(nodes, ChildAt(c.children, i));
        i := i + 1;
      }
      WithoutIdsTwice(old(nodes), c.children, [c.master]);
      nodes := FilterId(nodes, Some(c.master));
    }

    /**
     * Removes every link incident to `node`, one `splice(indexOf(l), 1)` per
     * incident link; the other links keep their order.
     */
    method SpliceLinksForNode(node: Node)
      requires Valid()
      modifies this`links
      ensures Valid()
      ensures links == WithoutIncident(old(links), node)
    {
      WellFormedDistinct(links);
      var toSplice := Incident(links, node);
      IncidentDistinct(links, node);
      RemoveFromArrayNothing(links, []);
      var k := 0;
      while k < |toSplice|
        invariant 0 <= k <= |toSplice|
        invariant links == RemoveFromArray(old(links), toSplice[..k])
        modifies this`links
      {
        var l := toSplice[k];
        assert toSplice[..k + 1] == toSplice[..k] + [l];
        assert l !in toSplice[..k] by {
          forall j | 0 <= j < k ensures toSplice[..k][j] != l {
            assert toSplice[..k][j] == toSplice[j];
          }
        }
        RemoveFromArrayDistinct(old(links), toSplice[..k]);
        SpliceIndexOf(links, l);
        RemoveFromArrayTwice(old(links), toSplice[..k], [l]);
        links := SpliceOne(links, IndexOf(links, l));
        k := k + 1;
      }
      assert toSplice[..|toSplice|] == toSplice;
      RemoveIncident(old(links), toSplice, node);
      var rest := WithoutIncident(old(links), node);
      RemoveFromArrayDistinct(old(links), toSplice);
      WellFormedSubset(old(links), rest);
    }
  }

  /**
   * The arrowheads of the selected link after an acted-on key-down: B makes
   * it point both ways, L left only, and R right only unless a node is
   * selected; any other key leaves them.
   */
  function KeyArrows(keyCode: int, nodeSelected: bool, a: Arrows): (r: Arrows)
    ensures keyCode == KeyB ==> r.left && r.right
    ensures keyCode == KeyL ==> r.left && !r.right
    ensures keyCode == KeyR && !nodeSelected ==> !r.left && r.right
    ensures !(keyCode == KeyB || keyCode == KeyL || (keyCode == KeyR && !nodeSelected)) ==> r == a
  {
    if keyCode == KeyB then Arrows(true, true)
    else if keyCode == KeyL then Arrows(true, false)
    else if keyCode == KeyR && !nodeSelected then Arrows(false, true)
    else a
  }

  /** The direction commands overwrite rather than toggle: pressing one twice is pressing it once. */
  lemma KeyArrowsIdempotent(keyCode: int, nodeSelected: bool, a: Arrows)
    ensures KeyArrows(keyCode, nodeSelected, KeyArrows(keyCode, nodeSelected, a)) == KeyArrows(keyCode, nodeSelected, a)
  {
  }
}
