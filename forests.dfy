/** The node table as an ordered forest. Every top-level tree is a root node; a node owns
    its content and the ordered list of its children. Ids identify nodes across the whole
    table, so one tree never shares a node with another. */
module Forests {
  import opened Outcomes
  import opened Widgets

  type NodeId = nat

  datatype Tree = Node(id: NodeId, content: Content, frozen: bool, children: seq<Tree>)

  type Forest = seq<Tree>

  /** Where a node goes: as the last child of a node, or just left or right of a node. */
  datatype Anchor = LastChildOf(parent: NodeId) | LeftOf(left: NodeId) | RightOf(right: NodeId)

  function AnchorId(a: Anchor): NodeId
  {
    match a
    case LastChildOf(p) => p
    case LeftOf(x) => x
    case RightOf(x) => x
  }

  // ---------------------------------------------------------------------------------
  // Queries

  /** The ids of a tree in depth-first order, root first. */
  function TreeIds(t: Tree): seq<NodeId>
  {
    [t.id] + Ids(t.children)
  }

  /** The ids of a forest in depth-first order. */
  function Ids(ts: Forest): seq<NodeId>
  {
    if ts == [] then [] else TreeIds(ts[0]) + Ids(ts[1..])
  }

  /** The ids of the top-level trees, in order. */
  function TopIds(ts: Forest): seq<NodeId>
  {
    if ts == [] then [] else [ts[0].id] + TopIds(ts[1..])
  }

  /** depth_first_order: the nodes of a forest, each before its descendants. */
  function DepthFirst(ts: Forest): seq<Tree>
  {
    if ts == [] then [] else [ts[0]] + DepthFirst(ts[0].children) + DepthFirst(ts[1..])
  }

  /** No id occurs twice. */
  ghost predicate Unique(ts: Forest)
  {
    forall x :: multiset(Ids(ts))[x] <= 1
  }

  /** The subtree rooted at `id`. */
  function Find(ts: Forest, id: NodeId): (r: Option<Tree>)
    ensures r.Some? <==> id in Ids(ts)
    ensures r.Some? ==> r.value.id == id
  {
    if ts == [] then None
    else if ts[0].id == id then Some(ts[0])
    else if id in Ids(ts[0].children) then Find(ts[0].children, id)
    else Find(ts[1..], id)
  }

  /** The ids of the subtree rooted at `id` (none when it is absent). */
  function Below(ts: Forest, id: NodeId): seq<NodeId>
  {
    match Find(ts, id)
    case Some(t) => TreeIds(t)
    case None => []
  }

  /** get_children, as ids. */
  function Kids(ts: Forest, id: NodeId): seq<NodeId>
  {
    match Find(ts, id)
    case Some(t) => TopIds(t.children)
    case None => []
  }

  function ParentIn(ts: Forest, id: NodeId, above: Option<NodeId>): (r: Option<NodeId>)
    ensures r.Some? ==> r == above || r.value in Ids(ts)
  {
    if ts == [] then None
    else if ts[0].id == id then above
    else if id in Ids(ts[0].children) then ParentIn(ts[0].children, id, Some(ts[0].id))
    else ParentIn(ts[1..], id, above)
  }

  /** get_parent, as an id: None for a root. */
  function Parent(ts: Forest, id: NodeId): (r: Option<NodeId>)
    ensures r.Some? ==> r.value in Ids(ts)
  {
    ParentIn(ts, id, None)
  }

  /** Whether a node is frozen. */
  predicate IsFrozen(ts: Forest, id: NodeId)
  {
    match Find(ts, id)
    case Some(t) => t.frozen
    case None => false
  }

  /** Every node of the forest is frozen. */
  predicate AllFrozen(ts: Forest)
  {
    ts == [] || (ts[0].frozen && AllFrozen(ts[0].children) && AllFrozen(ts[1..]))
  }

  /** Some node of the forest is frozen. */
  predicate AnyFrozen(ts: Forest)
  {
    ts != [] && (ts[0].frozen || AnyFrozen(ts[0].children) || AnyFrozen(ts[1..]))
  }

  /** A tree every node of which is frozen, as a commit's snapshot is. */
  predicate Sealed(t: Tree)
  {
    t.frozen && AllFrozen(t.children)
  }

  /** `x` is the root of a fully frozen top-level tree, as a commit's snapshot is. */
  predicate Snapshot(ts: Forest, x: NodeId)
  {
    x in TopIds(ts) &&
    match Find(ts, x)
    case Some(t) => Sealed(t)
    case None => false
  }

  // ---------------------------------------------------------------------------------
  // Structural edits

  /** Drops every subtree rooted at `n`. */
  function Remove(ts: Forest, n: NodeId): Forest
  {
    if ts == [] then []
    else if ts[0].id == n then Remove(ts[1..], n)
    else [Prune(ts[0], n)] + Remove(ts[1..], n)
  }

  function Prune(t: Tree, n: NodeId): Tree
  {
    t.(children := Remove(t.children, n))
  }

  /** Inserts `sub` at the anchor (at every node bearing the anchor's id). */
  function Place(ts: Forest, a: Anchor, sub: Tree): Forest
  {
    if ts == [] then []
    else Beside(Graft(ts[0], a, sub), a, sub) + Place(ts[1..], a, sub)
  }

  /** A node `g` as Place leaves it among its siblings: with `sub` just left or right of
      it when it is the anchor. */
  function Beside(g: Tree, a: Anchor, sub: Tree): Forest
  {
    if a == LeftOf(g.id) then [sub, g]
    else if a == RightOf(g.id) then [g, sub]
    else [g]
  }

  /** What a node becomes under Place, with `sub` appended to its children when it is the
      anchor's parent. */
  function Graft(t: Tree, a: Anchor, sub: Tree): Tree
  {
    t.(children := Place(t.children, a, sub) + (if a == LastChildOf(t.id) then [sub] else []))
  }

  /** Replaces the content of node `n`. */
  function SetContent(ts: Forest, n: NodeId, c: Content): Forest
  {
    if ts == [] then []
    else
      var t := ts[0];
      [Node(t.id, if t.id == n then c else t.content, t.frozen, SetContent(t.children, n, c))]
      + SetContent(ts[1..], n, c)
  }

  /** Marks the nodes whose ids are in `s` frozen. */
  function MarkFrozen(ts: Forest, s: set<NodeId>): Forest
  {
    if ts == [] then []
    else
      var t := ts[0];
      [Node(t.id, t.content, t.frozen || t.id in s, MarkFrozen(t.children, s))]
      + MarkFrozen(ts[1..], s)
  }
}
