/**
 * The graph entities of the layout editor and the pure list operations on
 * them: node and link records, the canonical-ordering and one-link-per-pair
 * invariant of the link list, link lookup, incident-link filtering, and
 * node removal by id.
 */
module Graph {
  import opened Wrappers
  import opened JsArray

  /**
   * A node of the editor. Its id never changes; the self-loop flag and the
   * pinning state (`fixed`, pinned coordinates `fx`/`fy`) are updated in place.
   * Coordinates are abstracted to reals; only their presence matters here.
   */
  class Node {
    const id: int
    var reflexive: bool
    var fixed: bool
    var fx: Option<real>
    var fy: Option<real>

    constructor (id: int, reflexive: bool)
      ensures this.id == id && this.reflexive == reflexive
      ensures !fixed && fx == None && fy == None
    {
      this.id := id;
      this.reflexive := reflexive;
      fixed := false;
      fx := None;
      fy := None;
    }
  }

  /** The two arrowheads of a link. */
  datatype Arrows = Arrows(left: bool, right: bool)

  /**
   * A link between two nodes. Its endpoints never change; which way it points
   * is given by the two arrowhead flags, which are updated in place.
   */
  class Link {
    const source: Node
    const target: Node
    var left: bool
    var right: bool

    constructor (source: Node, target: Node, left: bool, right: bool)
      ensures this.source == source && this.target == target
      ensures this.left == left && this.right == right
    {
      this.source := source;
      this.target := target;
      this.left := left;
      this.right := right;
    }

    /** The arrowheads as a value. */
    function Heads(): Arrows
      reads this
    {
      Arrows(left, right)
    }
  }

  /** A composite widget: the master node's id and the ids of its auxiliary nodes. */
  datatype Component = Component(master: int, children: seq<int>)

  /** Two links join the same source to the same target (so the same link, when canonical). */
  predicate SamePair(a: Link, b: Link) {
    a.source == b.source && a.target == b.target
  }

  /** Every link has the lower id at its source. */
  predicate Canonical(links: seq<Link>) {
    forall i :: 0 <= i < |links| ==> links[i].source.id < links[i].target.id
  }

  /** At most one link per (source, target) pair; in particular no link occurs twice. */
  predicate PairUnique(links: seq<Link>) {
    forall i, j :: 0 <= i < j < |links| ==> !SamePair(links[i], links[j])
  }

  /** The link-list invariant: canonical and one link per pair. */
  predicate WellFormed(links: seq<Link>) {
    Canonical(links) && PairUnique(links)
  }

  /** A well-formed link list holds each link object once. */
  lemma WellFormedDistinct(links: seq<Link>)
    requires WellFormed(links)
    ensures Distinct(links)
  {
  }

  /**
   * Canonical ordering makes the pair unordered: no two links of a well-formed
   * list join the same two nodes, whichever way round.
   */
  lemma WellFormedUnordered(links: seq<Link>, i: int, j: int)
    requires WellFormed(links) && 0 <= i < |links| && 0 <= j < |links| && i != j
    ensures !(links[i].source == links[j].source && links[i].target == links[j].target)
    ensures !(links[i].source == links[j].target && links[i].target == links[j].source)
  {
  }

  /** Any repetition-free selection of links from a well-formed list is well formed. */
  lemma WellFormedSubset(s: seq<Link>, t: seq<Link>)
    requires WellFormed(s) && Distinct(t)
    requires forall l :: l in t ==> l in s
    ensures WellFormed(t)
  {
    forall i | 0 <= i < |t| ensures t[i].source.id < t[i].target.id {
      assert t[i] in s;
    }
    forall i, j | 0 <= i < j < |t| ensures !SamePair(t[i], t[j]) {
      assert t[i] in s && t[j] in s;
      var a :| 0 <= a < |s| && s[a] == t[i];
      var b :| 0 <= b < |s| && s[b] == t[j];
      assert a != b;
      WellFormedUnordered(s, a, b);
    }
  }

  /**
   * `links.filter(l => l.source === source && l.target === target)[0]`: the
   * position of the first link joining `source` to `target`, or `|links|`
   * when there is none.
   */
  function FindLink(links: seq<Link>, source: Node, target: Node): (i: nat)
    ensures i <= |links|
    ensures i < |links| ==> links[i].source == source && links[i].target == target
    ensures forall j :: 0 <= j < i ==> !(links[j].source == source && links[j].target == target)
  {
    if links == [] then 0
    else if links[0].source == source && links[0].target == target then 0
    else 1 + FindLink(links[1..], source, target)
  }

  /** In a well-formed list the link found is the only one for its pair. */
  lemma FindLinkOnly(links: seq<Link>, source: Node, target: Node)
    requires WellFormed(links)
    ensures var i := FindLink(links, source, target);
      forall j :: 0 <= j < |links| && j != i ==> !(links[j].source == source && links[j].target == target)
  {
  }

  /** A link has `n` as one of its endpoints. */
  predicate Touches(l: Link, n: Node) {
    l.source == n || l.target == n
  }

  /** `links.filter(l => l.source === n || l.target === n)`: the links incident to `n`. */
  function Incident(links: seq<Link>, n: Node): (r: seq<Link>)
    ensures forall l :: l in r ==> l in links && Touches(l, n)
    ensures forall l :: l in links && Touches(l, n) ==> l in r
  {
    if links == [] then []
    else if Touches(links[0], n) then [links[0]] + Incident(links[1..], n)
    else Incident(links[1..], n)
  }

  /** The links not incident to `n`, in their original order. */
  function WithoutIncident(links: seq<Link>, n: Node): (r: seq<Link>)
    ensures forall l :: l in r ==> l in links && !Touches(l, n)
    ensures forall l :: l in links && !Touches(l, n) ==> l in r
  {
    if links == [] then []
    else if Touches(links[0], n) then WithoutIncident(links[1..], n)
    else [links[0]] + WithoutIncident(links[1..], n)
  }

  /** Dropping the incident links distributes over concatenation: the rest keep their order. */
  lemma {:induction false} WithoutIncidentConcat(a: seq<Link>, b: seq<Link>, n: Node)
    ensures WithoutIncident(a + b, n) == WithoutIncident(a, n) + WithoutIncident(b, n)
  {
    if a == [] {
      assert a + b == b;
    } else {
      assert (a + b)[0] == a[0];
      assert (a + b)[1..] == a[1..] + b;
      WithoutIncidentConcat(a[1..], b, n);
    }
  }

  /**
   * Removing, from a list, a list that holds exactly its links incident to `n`
   * leaves exactly the links not incident to `n`, in order.
   */
  lemma {:induction false} RemoveIncident(links: seq<Link>, remove: seq<Link>, n: Node)
    requires forall l :: l in links ==> (l in remove <==> Touches(l, n))
    ensures RemoveFromArray(links, remove) == WithoutIncident(links, n)
  {
    if links != [] {
      assert links[0] in links;
      assert forall l :: l in links[1..] ==> l in links;
      RemoveIncident(links[1..], remove, n);
    }
  }

  /** The incident links of a repetition-free list are repetition-free. */
  lemma {:induction false} IncidentDistinct(links: seq<Link>, n: Node)
    requires Distinct(links)
    ensures Distinct(Incident(links, n))
  {
    if links != [] {
      assert Distinct(links[1..]) by {
        forall i, j | 0 <= i < j < |links[1..]| ensures links[1..][i] != links[1..][j] {
          assert links[1..][i] == links[i + 1] && links[1..][j] == links[j + 1];
        }
      }
      IncidentDistinct(links[1..], n);
      if Touches(links[0], n) {
        var t := Incident(links[1..], n);
        assert links[0] !in t;
        var u := [links[0]] + t;
        forall i, j | 0 <= i < j < |u| ensures u[i] != u[j] {
          if i == 0 {
            assert u[j] == t[j - 1];
          } else {
            assert u[i] == t[i - 1] && u[j] == t[j - 1];
          }
        }
      }
    }
  }

  /** The nodes whose id is not among `ids`, in their original order. */
  function WithoutIds(nodes: seq<Node>, ids: seq<int>): (r: seq<Node>)
    ensures forall n :: n in r ==> n in nodes && n.id !in ids
    ensures forall n :: n in nodes && n.id !in ids ==> n in r
  {
    if nodes == [] then []
    else if nodes[0].id in ids then WithoutIds(nodes[1..], ids)
    else [nodes[0]] + WithoutIds(nodes[1..], ids)
  }

  /** Removing ids no node has leaves the nodes as they are. */
  lemma {:induction false} WithoutIdsNothing(nodes: seq<Node>, ids: seq<int>)
    requires forall n :: n in nodes ==> n.id !in ids
    ensures WithoutIds(nodes, ids) == nodes
  {
    if nodes != [] {
      assert nodes[0] in nodes;
      WithoutIdsNothing(nodes[1..], ids);
    }
  }

  /** Removing every id the nodes have leaves none. */
  lemma {:induction false} WithoutIdsAll(nodes: seq<Node>, ids: seq<int>)
    requires forall n :: n in nodes ==> n.id in ids
    ensures WithoutIds(nodes, ids) == []
  {
    if nodes != [] {
      assert nodes[0] in nodes;
      WithoutIdsAll(nodes[1..], ids);
    }
  }

  /** Removing nodes by id distributes over concatenation: the survivors keep their order. */
  lemma {:induction false} WithoutIdsConcat(a: seq<Node>, b: seq<Node>, ids: seq<int>)
    ensures WithoutIds(a + b, ids) == WithoutIds(a, ids) + WithoutIds(b, ids)
  {
    if a == [] {
      assert a + b == b;
    } else {
      assert (a + b)[0] == a[0];
      assert (a + b)[1..] == a[1..] + b;
      WithoutIdsConcat(a[1..], b, ids);
    }
  }

  /** Removing the ids `a` and then the ids `b` is removing `a + b` at once. */
  lemma {:induction false} WithoutIdsTwice(nodes: seq<Node>, a: seq<int>, b: seq<int>)
    ensures WithoutIds(WithoutIds(nodes, a), b) == WithoutIds(nodes, a + b)
  {
    if nodes != [] {
      WithoutIdsTwice(nodes[1..], a, b);
      if nodes[0].id !in a {
        var t := WithoutIds(nodes[1..], a);
        assert ([nodes[0]] + t)[0] == nodes[0];
        assert ([nodes[0]] + t)[1..] == t;
      }
    }
  }

  /**
   * `_.filter(nodes, o => o.id !== x)`, where `x` may be `undefined` (`None`),
   * which no node id equals.
   */
  function FilterId(nodes: seq<Node>, x: Option<int>): (r: seq<Node>)
    ensures forall n :: n in r ==> n in nodes && (x.Some? ==> n.id != x.value)
    ensures forall n :: n in nodes && (x.Some? ==> n.id != x.value) ==> n in r
  {
    match x
    case None => nodes
    case Some(v) => WithoutIds(nodes, [v])
  }

  /** `children[i]`: the child id at `i`, or `undefined` (`None`) outside the list. */
  function ChildAt(children: seq<int>, i: int): (r: Option<int>)
    ensures r.Some? <==> 0 <= i < |children|
    ensures r.Some? ==> r.value == children[i] && r.value in children
  {
    if 0 <= i < |children| then Some(children[i]) else None
  }

  /** Every id a composite owns: its children and its master. */
  function ComponentIds(c: Component): (ids: seq<int>)
    ensures forall x :: x in ids <==> x == c.master || x in c.children
  {
    c.children + [c.master]
  }

  /**
   * The arrowheads after a drag from one end of a pair to the other.
   * `prior` is the existing link's arrowheads, or `None` when the pair has no
   * link yet; `isRight` says the drag started at the lower-id node.
   */
  function Drag(prior: Option<Arrows>, isRight: bool): (r: Arrows)
    ensures r.right == (isRight || (prior.Some? && prior.value.right))
    ensures r.left == (!isRight || (prior.Some? && prior.value.left))
  {
    match prior
    case None => Arrows(!isRight, isRight)
    case Some(a) => if isRight then a.(right := true) else a.(left := true)
  }

  /** A new link has exactly one arrowhead, pointing at the node the drag ended on. */
  lemma DragNew(isRight: bool)
    ensures Drag(None, isRight).left != Drag(None, isRight).right
    ensures Drag(None, isRight).right == isRight
  {
  }

  /** Dragging over a pair both ways gives a link with both arrowheads. */
  lemma DragBothWays(isRight: bool)
    ensures Drag(Some(Drag(None, isRight)), !isRight) == Arrows(true, true)
  {
  }

  /** Repeating a drag the same way changes nothing; existing arrowheads are never cleared. */
  lemma DragMonotone(a: Arrows, isRight: bool)
    ensures Drag(Some(Drag(Some(a), isRight)), isRight) == Drag(Some(a), isRight)
    ensures (a.left ==> Drag(Some(a), isRight).left) && (a.right ==> Drag(Some(a), isRight).right)
  {
  }
}
