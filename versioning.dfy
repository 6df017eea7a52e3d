/** VersionTracker: a working copy that stays editable, and a chain of commits, each holding
    a frozen clone of the working copy as it was when the commit was made. */
module Versioning {
  import opened Outcomes
  import opened Widgets
  import opened Forests
  import opened ForestFacts
  import opened Cloning
  import opened TreeOps
  import opened Stores

  /** Commits are numbered in the order they are made. */
  type CommitId = nat

  /** A commit: the root of its snapshot and the head it was made on top of. */
  datatype Commit = CommitOf(root: NodeId, parent: Option<CommitId>)

  /** Every commit's parent was made before it. */
  predicate Linked(cs: seq<Commit>)
  {
    forall i :: 0 <= i < |cs| && cs[i].parent.Some? ==> cs[i].parent.value < i
  }

  /** get_history: the commits reached from `h` through parent links, newest first. Each
      entry is the parent of the one before it, and the last has no parent. */
  function History(cs: seq<Commit>, h: Option<CommitId>): (r: seq<CommitId>)
    requires Linked(cs) && (h.Some? ==> h.value < |cs|)
    ensures h.None? <==> r == []
    ensures forall k :: 0 <= k < |r| ==> r[k] < |cs|
    ensures h.Some? ==> |r| > 0 && r[0] == h.value && cs[r[|r| - 1]].parent.None?
    ensures forall j, k :: 0 <= j < k < |r| ==> r[k] < r[j]
    ensures forall k {:trigger cs[r[k]]} :: 0 <= k < |r| - 1 ==> cs[r[k]].parent == Some(r[k + 1])
    decreases if h.Some? then h.value + 1 else 0
  {
    match h
    case None => []
    case Some(i) => [i] + History(cs, cs[i].parent)
  }

  /** The commit ids n - 1, ..., 1, 0. */
  function Countdown(n: nat): seq<CommitId>
  {
    if n == 0 then [] else [n - 1] + Countdown(n - 1)
  }

  /** Commits made later do not change the history of an earlier head. */
  lemma {:induction false} HistoryAppend(cs: seq<Commit>, more: seq<Commit>, h: Option<CommitId>)
    requires Linked(cs) && Linked(cs + more) && (h.Some? ==> h.value < |cs|)
    ensures History(cs + more, h) == History(cs, h)
    decreases if h.Some? then h.value + 1 else 0
  {
    if h.Some? {
      assert (cs + more)[h.value] == cs[h.value];
      HistoryAppend(cs, more, cs[h.value].parent);
    }
  }

  /** A new commit on top of the head puts itself in front of the head's history. */
  lemma NewCommitHistory(cs: seq<Commit>, h: Option<CommitId>, root: NodeId)
    requires Linked(cs) && (h.Some? ==> h.value < |cs|)
    ensures Linked(cs + [CommitOf(root, h)])
    ensures History(cs + [CommitOf(root, h)], Some(|cs|)) == [|cs|] + History(cs, h)
  {
    var cs' := cs + [CommitOf(root, h)];
    assert Linked(cs') by {
      forall i | 0 <= i < |cs'| && cs'[i].parent.Some? ensures cs'[i].parent.value < i {
        if i < |cs| {
          assert cs'[i] == cs[i];
        }
      }
    }
    HistoryAppend(cs, [CommitOf(root, h)], h);
  }

  /** After n commits made one on top of the other, starting with none, the history lists
      all n, newest first. */
  lemma ChainHistory(cs: seq<Commit>)
    requires forall i :: 0 <= i < |cs| ==> ParentOf(cs, i) == if i == 0 then None else Some(i - 1)
    ensures Linked(cs)
    ensures |cs| > 0 ==> History(cs, Some(|cs| - 1)) == Countdown(|cs|)
  {
    ChainLinked(cs);
    if |cs| > 0 {
      ChainPrefix(cs, |cs| - 1);
    }
  }

  lemma ChainLinked(cs: seq<Commit>)
    requires forall i :: 0 <= i < |cs| ==> ParentOf(cs, i) == if i == 0 then None else Some(i - 1)
    ensures Linked(cs)
  {
    forall i | 0 <= i < |cs| && cs[i].parent.Some? ensures cs[i].parent.value < i {
      assert ParentOf(cs, i) == cs[i].parent;
    }
  }

  /** The parent link of commit i. */
  function ParentOf(cs: seq<Commit>, i: nat): Option<CommitId>
    requires i < |cs|
  {
    cs[i].parent
  }

  /** The history of commit k of such a chain is k, ..., 0. */
  lemma {:induction false} ChainPrefix(cs: seq<Commit>, k: CommitId)
    requires forall i :: 0 <= i < |cs| ==> ParentOf(cs, i) == if i == 0 then None else Some(i - 1)
    requires k < |cs| && Linked(cs)
    ensures History(cs, Some(k)) == Countdown(k + 1)
  {
    HistoryUnfold(cs, k);
    if k == 0 {
      assert cs[0].parent == None by {
        assert ParentOf(cs, 0) == cs[0].parent;
      }
      CountdownStep(1, History(cs, Some(0)), History(cs, None));
    } else {
      ChainPrefix(cs, k - 1);
      assert cs[k].parent == Some(k - 1) by {
        assert ParentOf(cs, k) == cs[k].parent;
      }
      CountdownStep(k + 1, History(cs, Some(k)), History(cs, Some(k - 1)));
    }
  }

  lemma HistoryUnfold(cs: seq<Commit>, i: CommitId)
    requires Linked(cs) && i < |cs|
    ensures History(cs, Some(i)) == [i] + History(cs, cs[i].parent)
  {
  }

  lemma CountdownStep(k: nat, h: seq<CommitId>, rest: seq<CommitId>)
    requires k > 0 && h == [k - 1] + rest && rest == Countdown(k - 1)
    ensures h == Countdown(k)
  {
  }

  /** has_changes on a forest: no commit yet, or a working copy that is not trees_equal to
      the head's snapshot. */
  predicate Changed(ts: Forest, wc: NodeId, headRoot: Option<NodeId>)
    requires wc in Ids(ts) && (headRoot.Some? ==> headRoot.value in Ids(ts))
  {
    headRoot.None? || !TreesEqual(Find(ts, wc).value, Find(ts, headRoot.value).value)
  }

  /** Adding a child anywhere in a working copy that matched the head's snapshot makes
      has_changes true: the snapshot is untouched and the working copy gained a node. */
  lemma AddChildMakesChanges(ts: Forest, wc: NodeId, h: NodeId, p: NodeId, id: NodeId, c: Content)
    requires Unique(ts) && wc in Ids(ts) && Snapshot(ts, h) && h in Ids(ts)
    requires p in Below(ts, wc) && p in Ids(ts) && id !in Ids(ts)
    requires !Changed(ts, wc, Some(h))
    requires AddChild(ts, p, id, c).Ok?
    ensures var r := AddChild(ts, p, id, c).value;
      wc in Ids(r) && h in Ids(r) && Changed(r, wc, Some(h))
  {
    var op := AddChildOp(p, id, c);
    var r := AddChild(ts, p, id, c).value;
    var a := LastChildOf(p);
    var sub := Leaf(id, c);
    SnapshotsSurvive(ts, op, h);
    FindAfterPlace(ts, a, sub, wc);
    var b := Find(ts, wc).value;
    var head := Find(ts, h).value;
    FindUnique(ts, wc);
    TreesEqualIsEquivalence(b, head, head);
    GraftBreaksTreesEqual(head, b, a, sub);
    TreesEqualIsEquivalence(head, Graft(b, a, sub), head);
  }

  /** Saving new attributes on a node of an unchanged working copy makes has_changes true:
      the edited node no longer compares equal to its counterpart in the head snapshot. */
  lemma SaveMakesChanges(ts: Forest, wc: NodeId, h: NodeId, n: NodeId, c: Content)
    requires Unique(ts) && wc in Ids(ts) && Snapshot(ts, h) && h in Ids(ts)
    requires n in Below(ts, wc) && n in Ids(ts)
    requires !Changed(ts, wc, Some(h))
    requires Save(ts, n, c).Ok? && !Equal(ContentOf(ts, n), c)
    ensures var r := Save(ts, n, c).value;
      wc in Ids(r) && h in Ids(r) && Changed(r, wc, Some(h))
  {
    var r := Save(ts, n, c).value;
    SnapshotsSurvive(ts, SaveOp(n, c), h);
    SetContentIds(ts, n, c);
    FindSetContent(ts, n, c, wc);
    var b := Find(ts, wc).value;
    var head := Find(ts, h).value;
    FindNested(ts, wc, n);
    TreesEqualIsEquivalence(b, head, head);
    SetContentBreaksTreesEqual(head, b, n, c);
    TreesEqualIsEquivalence(head, SetContent([b], n, c)[0], head);
  }

  class VersionTracker {
    /** The node table the working copy and the snapshots live in. */
    const store: Store
    /** The root of the editable tree. */
    var workingCopy: NodeId
    /** The latest commit, if any. */
    var head: Option<CommitId>
    /** Every commit made by this tracker, oldest first. */
    var commits: seq<Commit>

    ghost predicate Valid()
      reads this, store
    {
      store.Valid() && workingCopy in Ids(store.forest) &&
      Linked(commits) && (head.Some? ==> head.value < |commits|) &&
      forall i :: 0 <= i < |commits| ==> Snapshot(store.forest, commits[i].root)
    }

    /** The root of the head's snapshot. */
    function HeadRoot(): Option<NodeId>
      reads this
      requires head.Some? ==> head.value < |commits|
    {
      if head.Some? then Some(commits[head.value].root) else None
    }

    /** get_history */
    function GetHistory(): seq<CommitId>
      reads this
      requires Linked(commits) && (head.Some? ==> head.value < |commits|)
    {
      History(commits, head)
    }

    /** has_changes */
    predicate HasChanges()
      reads this, store
      requires Valid()
    {
      SnapshotIds(store.forest, HeadRoot());
      Changed(store.forest, workingCopy, HeadRoot())
    }

    constructor (s: Store, wc: NodeId)
      requires s.Valid() && wc in Ids(s.forest)
      ensures Valid() && store == s && workingCopy == wc && head == None && commits == []
      ensures HasChanges() && GetHistory() == []
    {
      store := s;
      workingCopy := wc;
      head := None;
      commits := [];
    }

    /** commit: freezes a clone of the working copy as a new commit on top of the head. The
        snapshot is a tree of its own, trees_equal to the working copy, so has_changes is
        false afterwards; earlier snapshots and the working copy are untouched. */
    method Commit() returns (c: CommitId)
      requires Valid()
      modifies this, store
      ensures Valid()
      ensures c == |old(commits)| && head == Some(c) && |commits| == c + 1
      ensures commits[..c] == old(commits) && commits[c].parent == old(head)
      ensures workingCopy == old(workingCopy) && commits[c].root != workingCopy
      ensures commits[c].root !in Ids(old(store.forest)) && commits[c].root == old(store.nextId)
      ensures store.nextId == commits[c].root + |Ids([Find(store.forest, workingCopy).value])|
      ensures forall x :: x in Ids(old(store.forest)) ==> Find(store.forest, x) == old(Find(store.forest, x))
      ensures Find(store.forest, workingCopy) == old(Find(store.forest, workingCopy))
      ensures TreesEqual(Find(store.forest, workingCopy).value, Find(store.forest, commits[c].root).value)
      ensures Mirrors([Find(store.forest, commits[c].root).value], [Find(store.forest, workingCopy).value])
      ensures forall i :: 0 <= i < c ==> Find(store.forest, commits[i].root) == old(Find(store.forest, commits[i].root))
      ensures GetHistory() == [c] + old(GetHistory())
      ensures !HasChanges()
    {
      var root := store.CloneTree(workingCopy, true);
      NewCommitHistory(commits, head, root);
      c := |commits|;
      commits := commits + [CommitOf(root, head)];
      head := Some(c);
      assert commits[..c] == old(commits);
    }

    /** revert_to: the working copy becomes an unfrozen clone of the commit's snapshot, and
        that is committed at once. The new head's snapshot is trees_equal to the commit's. */
    method RevertTo(target: CommitId) returns (c: CommitId)
      requires Valid() && target < |commits|
      modifies this, store
      ensures Valid()
      ensures c == |old(commits)| && head == Some(c) && |commits| == c + 1 && commits[..c] == old(commits)
      ensures commits[c].parent == old(head)
      ensures workingCopy !in Ids(old(store.forest)) && !AnyFrozen([Find(store.forest, workingCopy).value])
      ensures TreesEqual(Find(old(store.forest), old(commits)[target].root).value, Find(store.forest, workingCopy).value)
      ensures TreesEqual(Find(old(store.forest), old(commits)[target].root).value, Find(store.forest, commits[c].root).value)
      ensures Mirrors([Find(store.forest, workingCopy).value], [Find(old(store.forest), old(commits)[target].root).value])
      ensures Mirrors([Find(store.forest, commits[c].root).value], [Find(store.forest, workingCopy).value])
      ensures forall i :: 0 <= i < c ==> Find(store.forest, commits[i].root) == old(Find(store.forest, commits[i].root))
      ensures GetHistory() == [c] + old(GetHistory())
    {
      var src := commits[target].root;
      SnapshotIds(store.forest, Some(src));
      var t := Find(store.forest, src).value;
      workingCopy := store.CloneTree(src, false);
      var w := Find(store.forest, workingCopy).value;
      c := Commit();
      TreesEqualIsEquivalence(t, w, Find(store.forest, commits[c].root).value);
    }

    /** Runs one entry point on the store. The working copy stays, unless it is the node
        deleted. */
    method Edit(op: Op) returns (res: Outcome)
      requires Valid() && Applicable(store.forest, op)
      requires NewId(op).Some? ==> NewId(op).value == store.nextId
      requires op.DeleteOp? ==> workingCopy !in Below(store.forest, op.n)
      modifies store
      ensures Valid()
      ensures res == (if Apply(old(store.forest), op).Ok? then Pass else Fail(Apply(old(store.forest), op).error))
      ensures store.forest == (if res.Pass? then Apply(old(store.forest), op).value else old(store.forest))
      ensures store.nextId == old(store.nextId) + (if res.Pass? && NewId(op).Some? then 1 else 0)
      ensures forall i :: 0 <= i < |commits| ==> Find(store.forest, commits[i].root) == old(Find(store.forest, commits[i].root))
    {
      if Apply(store.forest, op).Ok? {
        assert NewId(op).Some? ==> NewId(op).value !in Ids(store.forest);
        ApplyIds(store.forest, op);
      }
      res := store.Run(op);
    }
  }

  /** A snapshot root is a node of the forest. */
  lemma SnapshotIds(ts: Forest, x: Option<NodeId>)
    requires x.Some? ==> Snapshot(ts, x.value)
    ensures x.Some? ==> x.value in Ids(ts)
  {
    TopIdsAreIds(ts);
  }
}
