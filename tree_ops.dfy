/** The tree mutations, at two levels. The node level stands for the structural primitives
    of the node table (add_child, add_sibling, move, delete on a Node); each checks the frozen
    flag before anything else. The content level stands for the methods called on a widget
    (add_child, add_sibling, reposition, save, delete on a Content): the frozen gate, then the
    relationship validator, then the primitive. Every operation returns the new forest or
    the error it raises, so a failed operation changes nothing. */
module TreeOps {
  import opened Outcomes
  import opened Widgets
  import opened Validation
  import opened Forests
  import opened ForestFacts

  /** Which side of a node add_sibling puts the new node on. */
  datatype Side = Before | After

  function SiblingAnchor(n: NodeId, side: Side): Anchor
  {
    if side == Before then LeftOf(n) else RightOf(n)
  }

  /** A newly created node: unfrozen and without children. */
  function Leaf(id: NodeId, c: Content): Tree
  {
    Node(id, c, false, [])
  }

  function ContentOf(ts: Forest, n: NodeId): Content
    requires n in Ids(ts)
  {
    Find(ts, n).value.content
  }

  /** The node that becomes the parent of whatever is placed at `a`. */
  function DestParent(ts: Forest, a: Anchor): (r: Option<NodeId>)
    ensures r.Some? ==> r.value in Ids(ts) || a == LastChildOf(r.value)
  {
    match a
    case LastChildOf(p) => Some(p)
    case LeftOf(x) => Parent(ts, x)
    case RightOf(x) => Parent(ts, x)
  }

  // ---------------------------------------------------------------------------------
  // Node level

  function RawAddChild(ts: Forest, p: NodeId, id: NodeId, c: Content): Result<Forest>
    requires p in Ids(ts)
  {
    if IsFrozen(ts, p) then Err(InvalidOperation)
    else Ok(Place(ts, LastChildOf(p), Leaf(id, c)))
  }

  function RawAddSibling(ts: Forest, n: NodeId, side: Side, id: NodeId, c: Content): Result<Forest>
    requires n in Ids(ts)
  {
    if IsFrozen(ts, n) then Err(InvalidOperation)
    else Ok(Place(ts, SiblingAnchor(n, side), Leaf(id, c)))
  }

  /** Node.move: frozen endpoints first, then the move into the node's own subtree. */
  function RawMove(ts: Forest, n: NodeId, a: Anchor): Result<Forest>
    requires n in Ids(ts) && AnchorId(a) in Ids(ts)
  {
    if IsFrozen(ts, n) || IsFrozen(ts, AnchorId(a)) then Err(InvalidOperation)
    else if AnchorId(a) in Below(ts, n) then Err(InvalidTreeMovement)
    else Ok(Place(Remove(ts, n), a, Find(ts, n).value))
  }

  /** delete, on the node or its content: refused when any node it would remove is frozen. */
  function Delete(ts: Forest, n: NodeId): Result<Forest>
    requires n in Ids(ts)
  {
    if AnyFrozen([Find(ts, n).value]) then Err(InvalidOperation)
    else Ok(Remove(ts, n))
  }

  /** Content.save: writes new attribute values unless the node is frozen. */
  function Save(ts: Forest, n: NodeId, c: Content): Result<Forest>
    requires n in Ids(ts)
  {
    if IsFrozen(ts, n) then Err(InvalidOperation)
    else Ok(SetContent(ts, n, c))
  }

  // ---------------------------------------------------------------------------------
  // Content level

  function AddChild(ts: Forest, p: NodeId, id: NodeId, c: Content): Result<Forest>
    requires p in Ids(ts)
  {
    if IsFrozen(ts, p) then Err(InvalidOperation)
    else match ValidateRelationship(ContentOf(ts, p), Instance(c))
      case Fail(e) => Err(e)
      case Pass => RawAddChild(ts, p, id, c)
  }

  /** add_sibling is validated against the node's parent; a root takes no siblings. */
  function AddSibling(ts: Forest, n: NodeId, side: Side, id: NodeId, c: Content): Result<Forest>
    requires n in Ids(ts)
  {
    if IsFrozen(ts, n) then Err(InvalidOperation)
    else match Parent(ts, n)
      case None => Err(InvalidTreeMovement)
      case Some(q) =>
        match ValidateRelationship(ContentOf(ts, q), Instance(c))
        case Fail(e) => Err(e)
        case Pass => RawAddSibling(ts, n, side, id, c)
  }

  /** Where reposition puts the node: just left of `right` when given, otherwise last under
      `parent`. */
  function RepositionAnchor(parent: Option<NodeId>, right: Option<NodeId>): Anchor
    requires parent.Some? || right.Some?
  {
    if right.Some? then LeftOf(right.value) else LastChildOf(parent.value)
  }

  /** reposition: validated against the destination parent, with the moved node's content as
      the child; a destination beside a root is refused. */
  function Reposition(ts: Forest, n: NodeId, parent: Option<NodeId>, right: Option<NodeId>): Result<Forest>
    requires n in Ids(ts)
    requires parent.Some? || right.Some?
    requires parent.Some? ==> parent.value in Ids(ts)
    requires right.Some? ==> right.value in Ids(ts)
  {
    var a := RepositionAnchor(parent, right);
    if IsFrozen(ts, n) || IsFrozen(ts, AnchorId(a)) then Err(InvalidOperation)
    else match DestParent(ts, a)
      case None => Err(InvalidTreeMovement)
      case Some(q) =>
        match ValidateRelationship(ContentOf(ts, q), Instance(ContentOf(ts, n)))
        case Fail(e) => Err(e)
        case Pass => RawMove(ts, n, a)
  }

  // ---------------------------------------------------------------------------------
  // Every entry point, as one datatype, so properties can speak of all of them at once.

  datatype Op =
    | AddChildOp(p: NodeId, id: NodeId, c: Content)
    | AddSiblingOp(n: NodeId, side: Side, id: NodeId, c: Content)
    | RawAddChildOp(p: NodeId, id: NodeId, c: Content)
    | RawAddSiblingOp(n: NodeId, side: Side, id: NodeId, c: Content)
    | RepositionOp(n: NodeId, parent: Option<NodeId>, right: Option<NodeId>)
    | MoveOp(n: NodeId, a: Anchor)
    | DeleteOp(n: NodeId)
    | SaveOp(n: NodeId, c: Content)

  /** The node the operation is called on. */
  function Target(op: Op): NodeId
  {
    match op
    case AddChildOp(p, _, _) => p
    case AddSiblingOp(n, _, _, _) => n
    case RawAddChildOp(p, _, _) => p
    case RawAddSiblingOp(n, _, _, _) => n
    case RepositionOp(n, _, _) => n
    case MoveOp(n, _) => n
    case DeleteOp(n) => n
    case SaveOp(n, _) => n
  }

  /** The nodes the operation names exist (a caller holds them). */
  predicate Applicable(ts: Forest, op: Op)
  {
    Target(op) in Ids(ts) &&
    match op
    case RepositionOp(_, parent, right) =>
      (parent.Some? || right.Some?) &&
      (parent.Some? ==> parent.value in Ids(ts)) && (right.Some? ==> right.value in Ids(ts))
    case MoveOp(_, a) => AnchorId(a) in Ids(ts)
    case _ => true
  }

  /** The id a new node would take, if the operation creates one. */
  function NewId(op: Op): Option<NodeId>
  {
    match op
    case AddChildOp(_, id, _) => Some(id)
    case AddSiblingOp(_, _, id, _) => Some(id)
    case RawAddChildOp(_, id, _) => Some(id)
    case RawAddSiblingOp(_, _, id, _) => Some(id)
    case _ => None
  }

  function Apply(ts: Forest, op: Op): Result<Forest>
    requires Applicable(ts, op)
  {
    match op
    case AddChildOp(p, id, c) => AddChild(ts, p, id, c)
    case AddSiblingOp(n, side, id, c) => AddSibling(ts, n, side, id, c)
    case RawAddChildOp(p, id, c) => RawAddChild(ts, p, id, c)
    case RawAddSiblingOp(n, side, id, c) => RawAddSibling(ts, n, side, id, c)
    case RepositionOp(n, parent, right) => Reposition(ts, n, parent, right)
    case MoveOp(n, a) => RawMove(ts, n, a)
    case DeleteOp(n) => Delete(ts, n)
    case SaveOp(n, c) => Save(ts, n, c)
  }

  // ---------------------------------------------------------------------------------
  // Frozen nodes

  /** An operation called on a frozen node raises InvalidOperation, whatever it is. */
  lemma FrozenTargetRefused(ts: Forest, op: Op)
    requires Applicable(ts, op) && IsFrozen(ts, Target(op))
    ensures Apply(ts, op) == Err(InvalidOperation)
  {
    if op.DeleteOp? {
      assert [Find(ts, op.n).value][0].frozen;
    }
  }

  /** Nothing can be moved next to or under a frozen node either. */
  lemma FrozenDestinationRefused(ts: Forest, n: NodeId, a: Anchor)
    requires n in Ids(ts) && AnchorId(a) in Ids(ts) && IsFrozen(ts, AnchorId(a))
    ensures RawMove(ts, n, a) == Err(InvalidOperation)
  {
  }

  /** Every node of a sealed tree of the forest refuses every operation called on it. */
  lemma SealedTreeRefusesEverything(ts: Forest, i: nat, op: Op)
    requires Unique(ts) && i < |ts| && Sealed(ts[i]) && Applicable(ts, op)
    requires Target(op) in TreeIds(ts[i])
    ensures Apply(ts, op) == Err(InvalidOperation)
  {
    SealedNodesAreFrozen(ts, i, Target(op));
    FrozenTargetRefused(ts, op);
  }

  /** A successful operation leaves every sealed top-level tree exactly as it was: this is
      what keeps the trees of old commits from changing. */
  lemma {:induction false} SealedTreesSurvive(ts: Forest, op: Op, t: Tree)
    requires Unique(ts) && Applicable(ts, op) && Apply(ts, op).Ok?
    requires t in ts && Sealed(t)
    ensures t in Apply(ts, op).value
  {
    var i :| 0 <= i < |ts| && ts[i] == t;
    var n := Target(op);
    if n in TreeIds(t) {
      SealedTreeRefusesEverything(ts, i, op);
    }
    match op
    case AddChildOp(p, id, c) =>
      PlaceKeeps(ts, LastChildOf(p), Leaf(id, c), i);
    case AddSiblingOp(_, side, id, c) =>
      PlaceKeeps(ts, SiblingAnchor(n, side), Leaf(id, c), i);
    case RawAddChildOp(p, id, c) =>
      PlaceKeeps(ts, LastChildOf(p), Leaf(id, c), i);
    case RawAddSiblingOp(_, side, id, c) =>
      PlaceKeeps(ts, SiblingAnchor(n, side), Leaf(id, c), i);
    case RepositionOp(_, parent, right) =>
      MoveKeepsSealed(ts, n, RepositionAnchor(parent, right), i);
    case MoveOp(_, a) =>
      MoveKeepsSealed(ts, n, a, i);
    case DeleteOp(_) =>
      RemoveKeeps(ts, n, i);
    case SaveOp(_, c) =>
      SetContentKeeps(ts, n, c, i);
  }

  lemma MoveKeepsSealed(ts: Forest, n: NodeId, a: Anchor, i: nat)
    requires Unique(ts) && n in Ids(ts) && AnchorId(a) in Ids(ts) && RawMove(ts, n, a).Ok?
    requires i < |ts| && Sealed(ts[i]) && n !in TreeIds(ts[i])
    ensures ts[i] in RawMove(ts, n, a).value
  {
    if AnchorId(a) in TreeIds(ts[i]) {
      SealedNodesAreFrozen(ts, i, AnchorId(a));
    }
    RemoveKeeps(ts, n, i);
    var r := Remove(ts, n);
    var j :| 0 <= j < |r| && r[j] == ts[i];
    PlaceKeeps(r, a, Find(ts, n).value, j);
  }

  /** A fresh leaf placed at an existing anchor adds exactly its id. */
  lemma AddUnique(ts: Forest, a: Anchor, id: NodeId, c: Content)
    requires Unique(ts) && AnchorId(a) in Ids(ts) && id !in Ids(ts)
    ensures Unique(Place(ts, a, Leaf(id, c)))
    ensures forall x :: x in Ids(Place(ts, a, Leaf(id, c))) <==> x in Ids(ts) || x == id
  {
    var r := Place(ts, a, Leaf(id, c));
    PlaceIds(ts, a, Leaf(id, c));
    assert TreeIds(Leaf(id, c)) == [id];
    forall x ensures multiset(Ids(r))[x] <= 1 && (x in Ids(r) <==> x in Ids(ts) || x == id) {
      assert multiset(Ids(ts))[x] <= 1;
    }
  }

  /** A successful move keeps ids unique and the set of ids as it was. */
  lemma MoveIds(ts: Forest, n: NodeId, a: Anchor)
    requires Unique(ts) && n in Ids(ts) && AnchorId(a) in Ids(ts) && RawMove(ts, n, a).Ok?
    ensures Unique(RawMove(ts, n, a).value)
    ensures forall x :: x in Ids(RawMove(ts, n, a).value) <==> x in Ids(ts)
  {
    var r := RawMove(ts, n, a).value;
    MoveCounts(ts, n, a);
    forall x ensures x in Ids(r) <==> x in Ids(ts) {
      assert x in Ids(r) <==> multiset(Ids(r))[x] > 0;
      assert x in Ids(ts) <==> multiset(Ids(ts))[x] > 0;
    }
  }

  /** Every successful operation keeps ids unique and brings in no id but the new node's. */
  lemma ApplyIds(ts: Forest, op: Op)
    requires Unique(ts) && Applicable(ts, op) && Apply(ts, op).Ok?
    requires NewId(op).Some? ==> NewId(op).value !in Ids(ts)
    ensures Unique(Apply(ts, op).value)
    ensures forall x :: x in Ids(Apply(ts, op).value) ==> x in Ids(ts) || NewId(op) == Some(x)
    ensures NewId(op).Some? ==> NewId(op).value in Ids(Apply(ts, op).value)
    ensures forall x :: x in Ids(ts) && !(op.DeleteOp? && x in Below(ts, op.n)) ==> x in Ids(Apply(ts, op).value)
  {
    var r := Apply(ts, op).value;
    match op
    case AddChildOp(p, id, c) =>
      assert r == Place(ts, LastChildOf(p), Leaf(id, c));
      AddUnique(ts, LastChildOf(p), id, c);
    case AddSiblingOp(n, side, id, c) =>
      assert r == Place(ts, SiblingAnchor(n, side), Leaf(id, c));
      AddUnique(ts, SiblingAnchor(n, side), id, c);
    case RawAddChildOp(p, id, c) =>
      assert r == Place(ts, LastChildOf(p), Leaf(id, c));
      AddUnique(ts, LastChildOf(p), id, c);
    case RawAddSiblingOp(n, side, id, c) =>
      assert r == Place(ts, SiblingAnchor(n, side), Leaf(id, c));
      AddUnique(ts, SiblingAnchor(n, side), id, c);
    case RepositionOp(n, parent, right) =>
      RepositionIsValidatedMove(ts, n, parent, right);
      MoveIds(ts, n, RepositionAnchor(parent, right));
    case MoveOp(n, a) =>
      MoveIds(ts, n, a);
    case DeleteOp(n) =>
      assert r == Remove(ts, n);
      RemoveUnique(ts, n);
      RemoveMembers(ts, n);
    case SaveOp(n, c) =>
      SetContentIds(ts, n, c);
  }

  /** A successful operation leaves every commit snapshot in place and unchanged. */
  lemma SnapshotsSurvive(ts: Forest, op: Op, x: NodeId)
    requires Unique(ts) && Applicable(ts, op) && Apply(ts, op).Ok?
    requires NewId(op).Some? ==> NewId(op).value !in Ids(ts)
    requires Snapshot(ts, x)
    ensures Snapshot(Apply(ts, op).value, x)
    ensures Find(Apply(ts, op).value, x) == Find(ts, x)
  {
    var r := Apply(ts, op).value;
    TopFind(ts, x);
    var t := Find(ts, x).value;
    SealedTreesSurvive(ts, op, t);
    ApplyIds(ts, op);
    FindMember(r, t);
    MemberTop(r, t);
  }

  // ---------------------------------------------------------------------------------
  // What each successful operation does

  /** A placement leaves every node that was there with its content and frozen flag, and
      with its children too unless the anchor is one of them or makes it the parent. */
  lemma PlaceKeepsNode(ts: Forest, a: Anchor, sub: Tree, w: NodeId)
    requires Unique(ts) && w in Ids(ts) && w !in TreeIds(sub)
    ensures var r := Place(ts, a, sub);
      && w in Ids(r)
      && ContentOf(r, w) == ContentOf(ts, w)
      && IsFrozen(r, w) == IsFrozen(ts, w)
      && (a.LastChildOf? && a != LastChildOf(w) ==> Kids(r, w) == Kids(ts, w))
      && (!a.LastChildOf? && AnchorId(a) !in Kids(ts, w) ==> Kids(r, w) == Kids(ts, w))
  {
    FindAfterPlace(ts, a, sub, w);
    KidsAfterPlace(ts, a, sub, w);
    if a.LastChildOf? {
      PlaceTopLast(Kids(ts, w), AnchorId(a), sub.id);
    } else if AnchorId(a) !in Kids(ts, w) {
      PlaceTopAbsent(Kids(ts, w), a, sub.id);
    }
  }

  /** add_child appends one new node, as the last child of the parent; every other node
      keeps its content, its frozen flag and its children. */
  lemma AddChildEffect(ts: Forest, p: NodeId, id: NodeId, c: Content)
    requires Unique(ts) && p in Ids(ts) && id !in Ids(ts) && RawAddChild(ts, p, id, c).Ok?
    ensures var r := RawAddChild(ts, p, id, c).value;
      && Kids(r, p) == Kids(ts, p) + [id]
      && Find(r, id) == Some(Leaf(id, c))
      && multiset(Ids(r)) == multiset(Ids(ts)) + multiset{id}
      && (forall w :: w in Ids(ts) ==>
            w in Ids(r) && ContentOf(r, w) == ContentOf(ts, w) && IsFrozen(r, w) == IsFrozen(ts, w))
      && (forall w :: w in Ids(ts) && w != p ==> Kids(r, w) == Kids(ts, w))
  {
    var sub := Leaf(id, c);
    KidsAfterPlace(ts, LastChildOf(p), sub, p);
    NotOwnChild(ts, p);
    PlaceTopAbsent(Kids(ts, p), LastChildOf(p), id);
    FindPlaced(ts, LastChildOf(p), sub);
    PlaceIds(ts, LastChildOf(p), sub);
    assert TreeIds(sub) == [id];
    forall w | w in Ids(ts)
      ensures var r := Place(ts, LastChildOf(p), sub);
        w in Ids(r) && ContentOf(r, w) == ContentOf(ts, w) && IsFrozen(r, w) == IsFrozen(ts, w)
        && (w != p ==> Kids(r, w) == Kids(ts, w))
    {
      PlaceKeepsNode(ts, LastChildOf(p), sub, w);
    }
  }

  /** add_sibling puts one new node just before or just after the node, among its parent's
      children; every other node keeps its content, its frozen flag and its children. */
  lemma AddSiblingEffect(ts: Forest, n: NodeId, side: Side, id: NodeId, c: Content, q: NodeId)
    requires Unique(ts) && q in Ids(ts) && n in Kids(ts, q) && id !in Ids(ts)
    requires n in Ids(ts) && RawAddSibling(ts, n, side, id, c).Ok?
    ensures var r := RawAddSibling(ts, n, side, id, c).value;
      var s := Kids(ts, q);
      var i := IndexOf(s, n);
      && (side == Before ==> Kids(r, q) == s[..i] + [id] + s[i..])
      && (side == After ==> Kids(r, q) == s[..i + 1] + [id] + s[i + 1..])
      && Find(r, id) == Some(Leaf(id, c))
      && multiset(Ids(r)) == multiset(Ids(ts)) + multiset{id}
      && (forall w :: w in Ids(ts) ==>
            w in Ids(r) && ContentOf(r, w) == ContentOf(ts, w) && IsFrozen(r, w) == IsFrozen(ts, w))
      && (forall w :: w in Ids(ts) && w != q ==> Kids(r, w) == Kids(ts, w))
  {
    var sub := Leaf(id, c);
    var a := SiblingAnchor(n, side);
    var r := Place(ts, a, sub);
    assert RawAddSibling(ts, n, side, id, c).value == r;
    var s := Kids(ts, q);
    var i := IndexOf(s, n);
    assert Kids(r, q) == PlaceTop(s, a, id) by {
      KidsAfterPlace(ts, a, sub, q);
    }
    assert (side == Before ==> PlaceTop(s, a, id) == s[..i] + [id] + s[i..])
        && (side == After ==> PlaceTop(s, a, id) == s[..i + 1] + [id] + s[i + 1..]) by {
      KidsNoDup(ts, q);
      NoDupAt(s, i);
      PlaceTopAt(s, a, id, i);
    }
    assert Find(r, id) == Some(sub) by {
      FindPlaced(ts, a, sub);
    }
    assert multiset(Ids(r)) == multiset(Ids(ts)) + multiset{id} by {
      PlaceIds(ts, a, sub);
      assert TreeIds(sub) == [id];
    }
    SiblingFrame(ts, n, a, sub, q);
  }

  /** Placing beside a child of q leaves every node but q with its content, its frozen
      flag and its children. */
  lemma SiblingFrame(ts: Forest, n: NodeId, a: Anchor, sub: Tree, q: NodeId)
    requires Unique(ts) && q in Ids(ts) && n in Kids(ts, q) && (a == LeftOf(n) || a == RightOf(n))
    requires forall w :: w in Ids(ts) ==> w !in TreeIds(sub)
    ensures var r := Place(ts, a, sub);
      forall w :: w in Ids(ts) ==>
        && w in Ids(r) && ContentOf(r, w) == ContentOf(ts, w) && IsFrozen(r, w) == IsFrozen(ts, w)
        && (w != q ==> Kids(r, w) == Kids(ts, w))
  {
    forall w | w in Ids(ts)
      ensures var r := Place(ts, a, sub);
        w in Ids(r) && ContentOf(r, w) == ContentOf(ts, w) && IsFrozen(r, w) == IsFrozen(ts, w)
        && (w != q ==> Kids(r, w) == Kids(ts, w))
    {
      ParentOfKid(ts, q, w, n);
      PlaceKeepsNode(ts, a, sub, w);
    }
  }

  /** add_sibling beside a root, at node level: the new node becomes a root just before or
      just after it, and every node keeps its content, its frozen flag and its children. */
  lemma AddSiblingAtRootEffect(ts: Forest, n: NodeId, side: Side, id: NodeId, c: Content)
    requires Unique(ts) && n in TopIds(ts) && id !in Ids(ts)
    requires n in Ids(ts) && RawAddSibling(ts, n, side, id, c).Ok?
    ensures var r := RawAddSibling(ts, n, side, id, c).value;
      var s := TopIds(ts);
      var i := IndexOf(s, n);
      && (side == Before ==> TopIds(r) == s[..i] + [id] + s[i..])
      && (side == After ==> TopIds(r) == s[..i + 1] + [id] + s[i + 1..])
      && Find(r, id) == Some(Leaf(id, c))
      && multiset(Ids(r)) == multiset(Ids(ts)) + multiset{id}
      && (forall w :: w in Ids(ts) ==>
            w in Ids(r) && ContentOf(r, w) == ContentOf(ts, w) && IsFrozen(r, w) == IsFrozen(ts, w)
            && Kids(r, w) == Kids(ts, w))
  {
    var sub := Leaf(id, c);
    var a := SiblingAnchor(n, side);
    var s := TopIds(ts);
    var i := IndexOf(s, n);
    TopNoDup(ts);
    NoDupAt(s, i);
    TopIdsPlace(ts, a, sub);
    PlaceTopAt(s, a, id, i);
    FindPlaced(ts, a, sub);
    PlaceIds(ts, a, sub);
    assert TreeIds(sub) == [id];
    ParentFacts(ts, n);
    forall w | w in Ids(ts)
      ensures var r := Place(ts, a, sub);
        w in Ids(r) && ContentOf(r, w) == ContentOf(ts, w) && IsFrozen(r, w) == IsFrozen(ts, w)
        && Kids(r, w) == Kids(ts, w)
    {
      if n in Kids(ts, w) {
        ParentOfKid(ts, w, w, n);
      }
      PlaceKeepsNode(ts, a, sub, w);
    }
  }

  /** A move keeps the ids unique and every id present, and carries the moved subtree
      whole; every node outside it keeps its content and frozen flag. */
  lemma MoveEffect(ts: Forest, n: NodeId, a: Anchor)
    requires Unique(ts) && n in Ids(ts) && AnchorId(a) in Ids(ts) && RawMove(ts, n, a).Ok?
    ensures var r := RawMove(ts, n, a).value;
      && Unique(r)
      && multiset(Ids(r)) == multiset(Ids(ts))
      && Find(r, n) == Find(ts, n)
      && (forall w :: w in Ids(ts) && w !in Below(ts, n) ==>
            w in Ids(r) && ContentOf(r, w) == ContentOf(ts, w) && IsFrozen(r, w) == IsFrozen(ts, w))
  {
    MoveCounts(ts, n, a);
    forall w | w in Ids(ts) && w !in Below(ts, n)
      ensures var r := RawMove(ts, n, a).value;
        w in Ids(r) && ContentOf(r, w) == ContentOf(ts, w) && IsFrozen(r, w) == IsFrozen(ts, w)
    {
      MoveKeepsNode(ts, n, a, w);
    }
  }

  /** The id count of a move: the subtree taken out is put back whole. */
  lemma MoveCounts(ts: Forest, n: NodeId, a: Anchor)
    requires Unique(ts) && n in Ids(ts) && AnchorId(a) in Ids(ts) && RawMove(ts, n, a).Ok?
    ensures var r := RawMove(ts, n, a).value;
      && Unique(r)
      && multiset(Ids(r)) == multiset(Ids(ts))
      && Find(r, n) == Find(ts, n)
  {
    var sub := Find(ts, n).value;
    var rm := Remove(ts, n);
    var r := Place(rm, a, sub);
    var m, mt := multiset(Ids(ts)), multiset(TreeIds(sub));
    assert Unique(rm) && AnchorId(a) in Ids(rm) && n !in Ids(rm) && multiset(Ids(rm)) == m - mt by {
      RemoveUnique(ts, n);
      RemoveIds(ts, n);
      RemoveMembers(ts, n);
    }
    PlaceIds(rm, a, sub);
    FindPlaced(rm, a, sub);
    assert multiset(Ids(r)) == m by {
      FindWithin(ts, n);
      TakeOutPutBack(m, mt);
    }
  }

  lemma TakeOutPutBack(m: multiset<NodeId>, mt: multiset<NodeId>)
    requires mt <= m
    ensures (m - mt) + mt == m
  {
    assert forall x :: ((m - mt) + mt)[x] == m[x];
  }

  /** A node outside the moved subtree keeps its content and frozen flag through a move. */
  lemma MoveKeepsNode(ts: Forest, n: NodeId, a: Anchor, w: NodeId)
    requires Unique(ts) && n in Ids(ts) && AnchorId(a) in Ids(ts) && RawMove(ts, n, a).Ok?
    requires w in Ids(ts) && w !in Below(ts, n)
    ensures var r := RawMove(ts, n, a).value;
      w in Ids(r) && ContentOf(r, w) == ContentOf(ts, w) && IsFrozen(r, w) == IsFrozen(ts, w)
  {
    var sub := Find(ts, n).value;
    var rm := Remove(ts, n);
    RemoveUnique(ts, n);
    RemoveMembers(ts, n);
    FindAfterRemove(ts, n, w);
    assert w !in TreeIds(sub);
    FindAfterPlace(rm, a, sub, w);
  }

  /** After a move, a node outside the moved subtree has its children as before, without the
      moved node, and with the moved node put at the anchor. */
  lemma MoveKids(ts: Forest, n: NodeId, a: Anchor, q: NodeId)
    requires Unique(ts) && n in Ids(ts) && AnchorId(a) in Ids(ts) && RawMove(ts, n, a).Ok?
    requires q in Ids(ts) && q !in Below(ts, n)
    ensures Kids(RawMove(ts, n, a).value, q) ==
              PlaceTop(Without(Kids(ts, q), n), a, n) + (if a == LastChildOf(q) then [n] else [])
  {
    var sub := Find(ts, n).value;
    RemoveUnique(ts, n);
    RemoveMembers(ts, n);
    FindWithin(ts, n);
    KidsAfterRemove(ts, n, q);
    assert q !in TreeIds(sub);
    KidsAfterPlace(Remove(ts, n), a, sub, q);
  }

  /** Moving the second of two children just left of the first swaps them. */
  lemma MoveSwapsSiblings(ts: Forest, q: NodeId, x: NodeId, y: NodeId)
    requires Unique(ts) && q in Ids(ts) && Kids(ts, q) == [x, y]
    requires x in Ids(ts) && y in Ids(ts) && !IsFrozen(ts, x) && !IsFrozen(ts, y)
    ensures RawMove(ts, y, LeftOf(x)).Ok?
    ensures Kids(RawMove(ts, y, LeftOf(x)).value, q) == [y, x]
  {
    KidBelow(ts, y, q, x);
    assert x != y by {
      KidsNoDup(ts, q);
      NoDupAt([x, y], 0);
    }
    SiblingNotBelow(ts, q, x, y);
    MoveKids(ts, y, LeftOf(x), q);
    assert Without([y], y) == [] by {
      assert [y][1..] == [];
    }
    assert Without([x, y], y) == [x] + Without([y], y) by {
      assert [x, y][1..] == [y];
    }
    assert PlaceTop([x], LeftOf(x), y) == [y, x] by {
      assert [x][1..] == [];
    }
  }

  /** Moving a node just left of X puts it immediately before X among X's siblings. */
  lemma MovePutsBefore(ts: Forest, n: NodeId, x: NodeId, q: NodeId)
    requires Unique(ts) && q in Ids(ts) && x in Kids(ts, q)
    requires n in Ids(ts) && x in Ids(ts) && !IsFrozen(ts, n) && !IsFrozen(ts, x) && x !in Below(ts, n)
    ensures RawMove(ts, n, LeftOf(x)).Ok?
    ensures var s := Without(Kids(ts, q), n);
      x in s && Kids(RawMove(ts, n, LeftOf(x)).value, q) == s[..IndexOf(s, x)] + [n] + s[IndexOf(s, x)..]
  {
    KidBelow(ts, n, q, x);
    assert x != n by {
      FindWithin(ts, n);
    }
    KidsNoDup(ts, q);
    WithoutMembers(Kids(ts, q), n);
    var s := Without(Kids(ts, q), n);
    NoDupAt(s, IndexOf(s, x));
    PlaceTopAt(s, LeftOf(x), n, IndexOf(s, x));
    MoveKids(ts, n, LeftOf(x), q);
  }

  /** delete takes away exactly the node's subtree; every other node keeps its content and
      frozen flag. */
  lemma DeleteEffect(ts: Forest, n: NodeId)
    requires Unique(ts) && n in Ids(ts) && Delete(ts, n).Ok?
    ensures var r := Delete(ts, n).value;
      && Unique(r)
      && multiset(Ids(r)) == multiset(Ids(ts)) - multiset(Below(ts, n))
      && n !in Ids(r)
      && (forall w :: w in Ids(ts) && w !in Below(ts, n) ==>
            w in Ids(r) && ContentOf(r, w) == ContentOf(ts, w) && IsFrozen(r, w) == IsFrozen(ts, w))
  {
    RemoveUnique(ts, n);
    RemoveIds(ts, n);
    RemoveMembers(ts, n);
    forall w | w in Ids(ts) && w !in Below(ts, n)
      ensures var r := Remove(ts, n);
        w in Ids(r) && ContentOf(r, w) == ContentOf(ts, w) && IsFrozen(r, w) == IsFrozen(ts, w)
    {
      FindAfterRemove(ts, n, w);
    }
  }

  /** delete takes the node out of its parent's children, and leaves every other list of
      children outside the subtree as it was. */
  lemma DeleteKids(ts: Forest, n: NodeId, q: NodeId)
    requires Unique(ts) && n in Ids(ts) && Delete(ts, n).Ok?
    requires q in Ids(ts) && q !in Below(ts, n)
    ensures Kids(Delete(ts, n).value, q) == Without(Kids(ts, q), n)
    ensures n !in Kids(ts, q) ==> Kids(Delete(ts, n).value, q) == Kids(ts, q)
  {
    KidsAfterRemove(ts, n, q);
    if n !in Kids(ts, q) {
      WithoutAbsent(Kids(ts, q), n);
    }
  }

  /** save changes the content of that one node and nothing else. */
  lemma SaveEffect(ts: Forest, n: NodeId, c: Content, w: NodeId)
    requires n in Ids(ts) && w in Ids(ts) && Save(ts, n, c).Ok?
    ensures var r := Save(ts, n, c).value;
      && Ids(r) == Ids(ts)
      && ContentOf(r, w) == (if w == n then c else ContentOf(ts, w))
      && Kids(r, w) == Kids(ts, w)
      && IsFrozen(r, w) == IsFrozen(ts, w)
  {
    SetContentIds(ts, n, c);
    FindAfterSetContent(ts, n, c, w);
  }

  // ---------------------------------------------------------------------------------
  // reposition

  /** A node cannot be repositioned beside a root. */
  lemma RepositionBesideRootRefused(ts: Forest, n: NodeId, parent: Option<NodeId>, x: NodeId)
    requires Unique(ts) && n in Ids(ts) && x in TopIds(ts)
    requires parent.Some? ==> parent.value in Ids(ts)
    ensures x in Ids(ts)
    ensures Reposition(ts, n, parent, Some(x)).Err?
    ensures !IsFrozen(ts, n) && !IsFrozen(ts, x) ==> Reposition(ts, n, parent, Some(x)) == Err(InvalidTreeMovement)
  {
    TopIdsAreIds(ts);
    ParentFacts(ts, x);
  }

  /** A node cannot be repositioned into its own subtree; once the frozen gate and the
      validator have let it through, the move raises InvalidTreeMovement. */
  lemma RepositionIntoOwnSubtreeRefused(ts: Forest, n: NodeId, parent: Option<NodeId>, right: Option<NodeId>)
    requires n in Ids(ts) && (parent.Some? || right.Some?)
    requires parent.Some? ==> parent.value in Ids(ts)
    requires right.Some? ==> right.value in Ids(ts)
    requires AnchorId(RepositionAnchor(parent, right)) in Below(ts, n)
    ensures Reposition(ts, n, parent, right).Err?
    ensures !IsFrozen(ts, n) && !IsFrozen(ts, AnchorId(RepositionAnchor(parent, right))) &&
            DestParent(ts, RepositionAnchor(parent, right)).Some? &&
            ValidateRelationship(ContentOf(ts, DestParent(ts, RepositionAnchor(parent, right)).value),
                                 Instance(ContentOf(ts, n))) == Pass
            ==> Reposition(ts, n, parent, right) == Err(InvalidTreeMovement)
  {
  }

  /** reposition succeeds only when the destination parent accepts the moved content, and
      then it is the move to the anchor. */
  lemma RepositionIsValidatedMove(ts: Forest, n: NodeId, parent: Option<NodeId>, right: Option<NodeId>)
    requires n in Ids(ts) && (parent.Some? || right.Some?)
    requires parent.Some? ==> parent.value in Ids(ts)
    requires right.Some? ==> right.value in Ids(ts)
    requires Reposition(ts, n, parent, right).Ok?
    ensures var a := RepositionAnchor(parent, right);
      && DestParent(ts, a).Some?
      && ValidateRelationship(ContentOf(ts, DestParent(ts, a).value), Instance(ContentOf(ts, n))) == Pass
      && RawMove(ts, n, a) == Reposition(ts, n, parent, right)
  {
  }

  /** The converse: with both endpoints unfrozen, a destination parent that accepts the
      moved content, and an anchor outside the node's own subtree, reposition succeeds and
      is the move to the anchor. */
  lemma RepositionSucceeds(ts: Forest, n: NodeId, parent: Option<NodeId>, right: Option<NodeId>)
    requires n in Ids(ts) && (parent.Some? || right.Some?)
    requires parent.Some? ==> parent.value in Ids(ts)
    requires right.Some? ==> right.value in Ids(ts)
    requires !IsFrozen(ts, n) && !IsFrozen(ts, AnchorId(RepositionAnchor(parent, right)))
    requires AnchorId(RepositionAnchor(parent, right)) !in Below(ts, n)
    requires DestParent(ts, RepositionAnchor(parent, right)).Some?
    requires DestParent(ts, RepositionAnchor(parent, right)).value in Ids(ts)
    requires ValidateRelationship(ContentOf(ts, DestParent(ts, RepositionAnchor(parent, right)).value),
                                  Instance(ContentOf(ts, n))) == Pass
    ensures Reposition(ts, n, parent, right).Ok?
    ensures Reposition(ts, n, parent, right) == RawMove(ts, n, RepositionAnchor(parent, right))
  {
  }

  /** reposition next to or under a frozen node raises InvalidOperation. */
  lemma RepositionFrozenAnchorRefused(ts: Forest, n: NodeId, parent: Option<NodeId>, right: Option<NodeId>)
    requires n in Ids(ts) && (parent.Some? || right.Some?)
    requires parent.Some? ==> parent.value in Ids(ts)
    requires right.Some? ==> right.value in Ids(ts)
    requires IsFrozen(ts, AnchorId(RepositionAnchor(parent, right)))
    ensures Reposition(ts, n, parent, right) == Err(InvalidOperation)
  {
  }

  /** A destination parent that rejects the moved content makes reposition raise the
      validator's error, before any movement is attempted. */
  lemma RepositionRejected(ts: Forest, n: NodeId, parent: Option<NodeId>, right: Option<NodeId>)
    requires n in Ids(ts) && (parent.Some? || right.Some?)
    requires parent.Some? ==> parent.value in Ids(ts)
    requires right.Some? ==> right.value in Ids(ts)
    requires !IsFrozen(ts, n) && !IsFrozen(ts, AnchorId(RepositionAnchor(parent, right)))
    requires DestParent(ts, RepositionAnchor(parent, right)).Some?
    ensures var q := DestParent(ts, RepositionAnchor(parent, right)).value;
      q in Ids(ts) &&
      (ValidateRelationship(ContentOf(ts, q), Instance(ContentOf(ts, n))).Fail? ==>
         Reposition(ts, n, parent, right) == Err(ValidateRelationship(ContentOf(ts, q), Instance(ContentOf(ts, n))).error))
  {
  }

  /** A rejected child or a rejected parent is reported as the validator's error, and
      nothing changes. */
  lemma AddChildRejected(ts: Forest, p: NodeId, id: NodeId, c: Content)
    requires p in Ids(ts) && !IsFrozen(ts, p)
    ensures AddChild(ts, p, id, c).Err? <==> ValidateRelationship(ContentOf(ts, p), Instance(c)).Fail?
    ensures ValidateRelationship(ContentOf(ts, p), Instance(c)).Fail? ==>
              AddChild(ts, p, id, c) == Err(ValidateRelationship(ContentOf(ts, p), Instance(c)).error)
  {
  }

  /** An add_child that the frozen gate and the validator let through is the node-level
      add_child, and it succeeds. */
  lemma AddChildAccepted(ts: Forest, p: NodeId, id: NodeId, c: Content)
    requires p in Ids(ts) && !IsFrozen(ts, p)
    requires ValidateRelationship(ContentOf(ts, p), Instance(c)) == Pass
    ensures RawAddChild(ts, p, id, c).Ok? && AddChild(ts, p, id, c) == RawAddChild(ts, p, id, c)
  {
  }

  /** add_sibling asks the validator about the node's parent. It raises the validator's
      error on a refusal, and is the node-level add_sibling otherwise. */
  lemma AddSiblingValidated(ts: Forest, n: NodeId, side: Side, id: NodeId, c: Content, q: NodeId)
    requires n in Ids(ts) && !IsFrozen(ts, n) && Parent(ts, n) == Some(q)
    ensures ValidateRelationship(ContentOf(ts, q), Instance(c)).Fail? ==>
              AddSibling(ts, n, side, id, c) == Err(ValidateRelationship(ContentOf(ts, q), Instance(c)).error)
    ensures ValidateRelationship(ContentOf(ts, q), Instance(c)) == Pass ==>
              RawAddSibling(ts, n, side, id, c).Ok? && AddSibling(ts, n, side, id, c) == RawAddSibling(ts, n, side, id, c)
  {
  }

  /** add_sibling on an unfrozen root raises InvalidTreeMovement before asking the validator. */
  lemma AddSiblingAtRootRefused(ts: Forest, n: NodeId, side: Side, id: NodeId, c: Content)
    requires Unique(ts) && n in TopIds(ts) && n in Ids(ts) && !IsFrozen(ts, n)
    ensures AddSibling(ts, n, side, id, c) == Err(InvalidTreeMovement)
  {
    ParentFacts(ts, n);
  }
}
