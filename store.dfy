/** The node table as a mutable object: the forest of every tree in the database and the
    next primary key to hand out. Every method either changes the forest as the matching
    pure operation says or, when that operation raises, leaves it untouched. */
module Stores {
  import opened Outcomes
  import opened Widgets
  import opened Forests
  import opened ForestFacts
  import opened Cloning
  import opened TreeOps

  class Store {
    var forest: Forest
    var nextId: NodeId

    /** Primary keys are unique and all below the next one to be handed out. */
    ghost predicate Valid()
      reads this
    {
      Unique(forest) && forall x :: x in Ids(forest) ==> x < nextId
    }

    constructor ()
      ensures Valid() && forest == [] && nextId == 0
    {
      forest := [];
      nextId := 0;
    }

    /** add_root: a new unfrozen root holding `c`. */
    method AddRoot(c: Content) returns (id: NodeId)
      requires Valid()
      modifies this
      ensures Valid()
      ensures id == old(nextId) && id !in Ids(old(forest))
      ensures forest == old(forest) + [Leaf(id, c)] && nextId == id + 1
      ensures Find(forest, id) == Some(Leaf(id, c)) && id in TopIds(forest)
      ensures forall x :: Snapshot(old(forest), x) ==> Snapshot(forest, x) && Find(forest, x) == Find(old(forest), x)
    {
      id := nextId;
      AddLeaf(forest, id, c);
      forest := forest + [Leaf(id, c)];
      nextId := nextId + 1;
    }

    /** Runs one entry point of the tree. A new node takes the next primary key. */
    method Run(op: Op) returns (res: Outcome)
      requires Valid() && Applicable(forest, op)
      requires NewId(op).Some? ==> NewId(op).value == nextId
      modifies this
      ensures Valid()
      ensures res == (if Apply(old(forest), op).Ok? then Pass else Fail(Apply(old(forest), op).error))
      ensures forest == (if res.Pass? then Apply(old(forest), op).value else old(forest))
      ensures nextId == old(nextId) + (if res.Pass? && NewId(op).Some? then 1 else 0)
      ensures forall x :: Snapshot(old(forest), x) ==> Snapshot(forest, x) && Find(forest, x) == Find(old(forest), x)
    {
      var r := Apply(forest, op);
      if r.Err? {
        return Fail(r.error);
      }
      ApplyIds(forest, op);
      forall x | Snapshot(forest, x) ensures Snapshot(r.value, x) && Find(r.value, x) == Find(forest, x) {
        SnapshotsSurvive(forest, op, x);
      }
      forest := r.value;
      if NewId(op).Some? {
        nextId := nextId + 1;
      }
      return Pass;
    }

    /** Setting is_frozen on a node and saving it: a raw node save, which the frozen flag
        does not gate. */
    method SetFrozen(n: NodeId)
      requires Valid() && n in Ids(forest)
      modifies this
      ensures Valid() && nextId == old(nextId)
      ensures forest == MarkFrozen(old(forest), {n})
      ensures IsFrozen(forest, n)
      ensures forall x :: Snapshot(old(forest), x) ==> Snapshot(forest, x) && Find(forest, x) == Find(old(forest), x)
    {
      MarkFrozenSnapshots(forest, {n});
      MarkFrozenIds(forest, {n});
      FindAfterMarkFrozen(forest, {n}, n);
      var t := Find(forest, n).value;
      assert MarkFrozen([t], {n})[0].frozen;
      forest := MarkFrozen(forest, {n});
    }

    /** Freezes every node of the tree rooted at `n`, one node at a time in depth-first
        order. */
    method FreezeTree(n: NodeId)
      requires Valid() && n in Ids(forest)
      modifies this
      ensures Valid() && nextId == old(nextId)
      ensures forest == MarkFrozen(old(forest), Members(Below(old(forest), n)))
      ensures Find(forest, n).Some? && Sealed(Find(forest, n).value)
      ensures forall x :: Snapshot(old(forest), x) ==> Snapshot(forest, x) && Find(forest, x) == Find(old(forest), x)
    {
      var order := Below(forest, n);
      var i := 0;
      MarkFrozenNothing(forest);
      assert Members(order[..0]) == {};
      while i < |order|
        invariant 0 <= i <= |order|
        invariant Valid() && nextId == old(nextId)
        invariant forest == MarkFrozen(old(forest), Members(order[..i]))
        invariant forall x :: Snapshot(old(forest), x) ==> Snapshot(forest, x) && Find(forest, x) == Find(old(forest), x)
      {
        FreezeStep(old(forest), n, i);
        SetFrozen(order[i]);
        i := i + 1;
      }
      assert order[..i] == order;
      FrozenTreeSealed(old(forest), n);
    }

    /** clone_tree: appends a copy of the tree rooted at `n`, with fresh primary keys, as a
        new root; `freeze` says whether the copy is frozen. The copy is trees_equal to the
        original, and nothing that existed before changes. */
    method CloneTree(n: NodeId, freeze: bool) returns (root: NodeId)
      requires Valid() && n in Ids(forest)
      modifies this
      ensures Valid()
      ensures root == old(nextId) && root !in Ids(old(forest))
      ensures nextId == root + |Ids([Find(old(forest), n).value])|
      ensures forest == old(forest) + CloneForest([Find(old(forest), n).value], root, freeze).0
      ensures root in TopIds(forest) && Find(forest, root).Some?
      ensures TreesEqual(Find(old(forest), n).value, Find(forest, root).value)
      ensures Mirrors([Find(forest, root).value], [Find(old(forest), n).value])
      ensures freeze ==> Snapshot(forest, root)
      ensures !freeze ==> !AnyFrozen([Find(forest, root).value])
      ensures forall x :: x in Ids(old(forest)) ==> Find(forest, x) == Find(old(forest), x)
      ensures forall x :: Snapshot(old(forest), x) ==> Snapshot(forest, x) && Find(forest, x) == Find(old(forest), x)
    {
      root := nextId;
      var t := Find(forest, n).value;
      var (copy, after) := CloneForest([t], root, freeze);
      CloneAppended(forest, t, root, freeze);
      forest := forest + copy;
      nextId := after;
    }
  }

  // ---------------------------------------------------------------------------------
  // Lemmas the store methods use

  /** The set of ids a sequence holds. */
  function Members(s: seq<NodeId>): (r: set<NodeId>)
    ensures forall x :: x in r <==> x in s
  {
    set x | x in s
  }

  /** A new root with a fresh key keeps the keys unique and every snapshot as it was. */
  lemma AddLeaf(ts: Forest, id: NodeId, c: Content)
    requires Unique(ts) && forall x :: x in Ids(ts) ==> x < id
    ensures id !in Ids(ts) && Unique(ts + [Leaf(id, c)])
    ensures forall x :: x in Ids(ts + [Leaf(id, c)]) ==> x < id + 1
    ensures Find(ts + [Leaf(id, c)], id) == Some(Leaf(id, c)) && id in TopIds(ts + [Leaf(id, c)])
    ensures forall x :: Snapshot(ts, x) ==> Snapshot(ts + [Leaf(id, c)], x) && Find(ts + [Leaf(id, c)], x) == Find(ts, x)
  {
    assert Ids([Leaf(id, c)]) == [id] by {
      IdsSingleton(Leaf(id, c));
    }
    AppendFresh(ts, [Leaf(id, c)], id);
    assert TopIds([Leaf(id, c)]) == [id];
  }

  /** Appending trees whose ids are all above those of a forest keeps the ids unique,
      leaves every subtree of the forest where it was, and keeps every snapshot. */
  lemma AppendFresh(ts: Forest, more: Forest, bound: nat)
    requires Unique(ts) && Unique(more)
    requires forall x :: x in Ids(ts) ==> x < bound
    requires forall x :: x in Ids(more) ==> x >= bound
    ensures Unique(ts + more)
    ensures Ids(ts + more) == Ids(ts) + Ids(more)
    ensures TopIds(ts + more) == TopIds(ts) + TopIds(more)
    ensures forall x :: x in Ids(ts) ==> Find(ts + more, x) == Find(ts, x)
    ensures forall x :: x in Ids(more) ==> Find(ts + more, x) == Find(more, x)
    ensures forall x :: Snapshot(ts, x) ==> Snapshot(ts + more, x) && Find(ts + more, x) == Find(ts, x)
  {
    IdsConcat(ts, more);
    TopIdsConcat(ts, more);
    forall x ensures multiset(Ids(ts + more))[x] <= 1 {
      assert multiset(Ids(ts))[x] <= 1 && multiset(Ids(more))[x] <= 1;
      if x in Ids(ts) {
        assert x !in Ids(more);
      }
    }
    forall x | x in Ids(ts) || x in Ids(more) ensures Find(ts + more, x) == if x in Ids(ts) then Find(ts, x) else Find(more, x) {
      FindConcat(ts, more, x);
    }
    AppendKeeps(ts, more);
  }

  /** What CloneTree leaves: the clone appended with ids from `next` on, equal to the
      original, frozen as asked, and the rest of the forest as it was. */
  lemma CloneAppended(ts: Forest, t: Tree, next: NodeId, freeze: bool)
    requires Unique(ts) && forall x :: x in Ids(ts) ==> x < next
    ensures var (copy, after) := CloneForest([t], next, freeze);
      && var r := ts + copy;
      && Unique(r) && next < after && (forall x :: x in Ids(r) ==> x < after)
      && next !in Ids(ts) && next in TopIds(r) && Find(r, next) == Some(copy[0])
      && TreesEqual(t, copy[0]) && Mirrors([copy[0]], [t])
      && (freeze ==> Snapshot(r, next))
      && (!freeze ==> !AnyFrozen([copy[0]]))
      && (forall x :: x in Ids(ts) ==> Find(r, x) == Find(ts, x))
      && (forall x :: Snapshot(ts, x) ==> Snapshot(r, x) && Find(r, x) == Find(ts, x))
  {
    var (copy, after) := CloneForest([t], next, freeze);
    CloneIds([t], next, freeze);
    RangeUnique(next, after);
    IdsSingleton(t);
    CloneTreesEqual(t, next, freeze);
    CloneFrozen([t], next, freeze);
    CloneRoot(t, next, freeze);
    CloneMirrors([t], next, freeze);
    AppendFresh(ts, copy, next);
    assert Sealed(copy[0]) <== freeze by {
      assert copy == [copy[0]];
    }
  }

  /** The root of a clone takes the first fresh id. */
  lemma CloneRoot(t: Tree, next: NodeId, freeze: bool)
    ensures var c := CloneForest([t], next, freeze).0;
      c == [c[0]] && c[0].id == next && Find(c, next) == Some(c[0]) && TopIds(c) == [next]
  {
    var c := CloneForest([t], next, freeze).0;
    assert [t][1..] == [];
    assert c[1..] == [];
  }

  /** Appending trees with fresh ids keeps every snapshot. */
  lemma AppendKeeps(ts: Forest, more: Forest)
    requires Unique(ts)
    ensures forall x :: Snapshot(ts, x) ==> Snapshot(ts + more, x) && Find(ts + more, x) == Find(ts, x)
  {
    TopIdsConcat(ts, more);
    forall x | Snapshot(ts, x) ensures Snapshot(ts + more, x) && Find(ts + more, x) == Find(ts, x) {
      TopFind(ts, x);
      FindConcat(ts, more, x);
    }
  }

  /** Freezing nodes keeps every snapshot, which is already frozen throughout. */
  lemma MarkFrozenSnapshots(ts: Forest, s: set<NodeId>)
    requires Unique(ts)
    ensures Unique(MarkFrozen(ts, s))
    ensures forall x :: Snapshot(ts, x) ==> Snapshot(MarkFrozen(ts, s), x) && Find(MarkFrozen(ts, s), x) == Find(ts, x)
  {
    var r := MarkFrozen(ts, s);
    MarkFrozenIds(ts, s);
    forall x | Snapshot(ts, x) ensures Snapshot(r, x) && Find(r, x) == Find(ts, x) {
      TopFind(ts, x);
      var t := Find(ts, x).value;
      var i :| 0 <= i < |ts| && ts[i] == t;
      MarkFrozenKeeps(ts, s, i);
      FindMember(r, t);
    }
  }

  /** One round of FreezeTree's loop: the next node in depth-first order exists, and
      freezing it extends the frozen set by that node. */
  lemma FreezeStep(ts: Forest, n: NodeId, i: nat)
    requires n in Ids(ts) && i < |Below(ts, n)|
    ensures var order := Below(ts, n);
      && order[i] in Ids(MarkFrozen(ts, Members(order[..i])))
      && MarkFrozen(MarkFrozen(ts, Members(order[..i])), {order[i]}) == MarkFrozen(ts, Members(order[..i + 1]))
  {
    var order := Below(ts, n);
    MarkFrozenIds(ts, Members(order[..i]));
    FindWithin(ts, n);
    assert order[i] in Ids(ts) by {
      assert multiset(order)[order[i]] > 0;
    }
    MarkFrozenTwice(ts, Members(order[..i]), {order[i]});
    MembersSnoc(order, i);
  }

  lemma MembersSnoc(s: seq<NodeId>, i: nat)
    requires i < |s|
    ensures Members(s[..i]) + {s[i]} == Members(s[..i + 1])
  {
    assert s[..i + 1] == s[..i] + [s[i]];
  }

  /** Once every node of a subtree is in the frozen set, the subtree is sealed. */
  lemma FrozenTreeSealed(ts: Forest, n: NodeId)
    requires n in Ids(ts)
    ensures var r := MarkFrozen(ts, Members(Below(ts, n)));
      Find(r, n).Some? && Sealed(Find(r, n).value)
  {
    var s := Members(Below(ts, n));
    var t := Find(ts, n).value;
    FindAfterMarkFrozen(ts, s, n);
    IdsSingleton(t);
    MarkFrozenCovers([t], s);
    var m := MarkFrozen([t], s);
    assert m[0] == Find(MarkFrozen(ts, s), n).value;
  }
}
