/** The versioning tests replayed on the model: a store, a tracker on a one-node tree, and
    the commits, edits and reverts the tests make. */
module Scenarios {
  import opened Outcomes
  import opened Widgets
  import opened Forests
  import opened ForestFacts
  import opened Cloning
  import opened TreeOps
  import opened Stores
  import opened Versioning

  function Reversed(s: seq<CommitId>): (r: seq<CommitId>)
    ensures |r| == |s|
    ensures forall i :: 0 <= i < |s| ==> r[i] == s[|s| - 1 - i]
  {
    if s == [] then [] else Reversed(s[1..]) + [s[0]]
  }

  lemma ReversedSnoc(s: seq<CommitId>, c: CommitId)
    ensures Reversed(s + [c]) == [c] + Reversed(s)
  {
    if s == [] {
      assert [c][1..] == [];
    } else {
      assert (s + [c])[1..] == s[1..] + [c];
      ReversedSnoc(s[1..], c);
    }
  }

  /** One more commit, numbered after those made so far. */
  lemma MadeInOrder(made: seq<CommitId>, c: CommitId)
    requires forall k :: 0 <= k < |made| ==> made[k] == k
    requires c == |made|
    ensures forall k :: 0 <= k < |made + [c]| ==> (made + [c])[k] == k
    ensures Reversed(made + [c]) == [c] + Reversed(made)
  {
    ReversedSnoc(made, c);
  }

  /** The text held by the root of a snapshot ("" for a missing node). */
  function RootText(ts: Forest, x: NodeId): string
  {
    match Find(ts, x)
    case Some(t) => TextOf(t.content)
    case None => ""
  }

  /** A tracker on a new root holding `text`, with no commit yet. */
  method NewTracker(text: string) returns (t: VersionTracker)
    ensures fresh(t) && fresh(t.store) && t.Valid()
    ensures t.commits == [] && t.head == None && t.GetHistory() == []
    ensures Find(t.store.forest, t.workingCopy) == Some(Leaf(t.workingCopy, TextWidget(text)))
  {
    var s := new Store();
    var wc := s.AddRoot(TextWidget(text));
    t := new VersionTracker(s, wc);
  }

  /** get_history after n commits made in a row lists them newest first. */
  method GetHistoryScenario(n: nat) returns (made: seq<CommitId>, history: seq<CommitId>)
    ensures |made| == n && history == Reversed(made)
    ensures forall i :: 0 <= i < n ==> made[i] == i
  {
    var t := NewTracker("first");
    made := [];
    var i := 0;
    while i < n
      invariant 0 <= i <= n && |made| == i
      invariant t.Valid() && |t.commits| == i
      invariant forall k :: 0 <= k < i ==> made[k] == k
      invariant t.GetHistory() == Reversed(made)
    {
      var c := t.Commit();
      MadeInOrder(made, c);
      made := made + [c];
      i := i + 1;
    }
    history := t.GetHistory();
  }

  /** Saving new content on an unfrozen node: the save succeeds and the node holds it. */
  lemma SaveSucceeds(ts: Forest, n: NodeId, c: Content)
    requires n in Ids(ts) && !Find(ts, n).value.frozen
    ensures Save(ts, n, c).Ok?
    ensures Find(Save(ts, n, c).value, n).Some? && Find(Save(ts, n, c).value, n).value.content == c
  {
    SaveEffect(ts, n, c, n);
  }

  /** Saving a new text on the working copy: the working copy holds it, and no commit's
      snapshot changes. */
  method SetText(t: VersionTracker, text: string)
    requires t.Valid() && !Find(t.store.forest, t.workingCopy).value.frozen
    modifies t.store
    ensures t.Valid()
    ensures Find(t.store.forest, t.workingCopy).value.content == TextWidget(text)
    ensures forall i :: 0 <= i < |t.commits| ==> Find(t.store.forest, t.commits[i].root) == old(Find(t.store.forest, t.commits[i].root))
  {
    SaveSucceeds(t.store.forest, t.workingCopy, TextWidget(text));
    var r := t.Edit(SaveOp(t.workingCopy, TextWidget(text)));
  }

  /** Saving `text` on the working copy and committing: the new snapshot holds `text`, and
      no earlier snapshot changes. */
  method SaveAndCommit(t: VersionTracker, text: string) returns (c: CommitId)
    requires t.Valid() && !Find(t.store.forest, t.workingCopy).value.frozen
    modifies t, t.store
    ensures t.Valid() && c == |old(t.commits)| && |t.commits| == c + 1
    ensures t.GetHistory() == [c] + old(t.GetHistory())
    ensures RootText(t.store.forest, t.commits[c].root) == text
    ensures forall i :: 0 <= i < c ==>
              t.commits[i] == old(t.commits[i]) &&
              RootText(t.store.forest, t.commits[i].root) == old(RootText(t.store.forest, t.commits[i].root))
  {
    SetText(t, text);
    c := t.Commit();
    assert Find(t.store.forest, t.commits[c].root).value.content == TextWidget(text);
    assert forall i :: 0 <= i < c ==> t.commits[i] == t.commits[..c][i];
  }

  /** A tracker on a new root holding "first", with that committed once. */
  method FirstCommit() returns (t: VersionTracker)
    ensures fresh(t) && fresh(t.store) && t.Valid()
    ensures |t.commits| == 1 && t.GetHistory() == [0]
    ensures !Find(t.store.forest, t.workingCopy).value.frozen
    ensures RootText(t.store.forest, t.commits[0].root) == "first"
  {
    t := NewTracker("first");
    var c1 := t.Commit();
    assert Find(t.store.forest, t.commits[c1].root).value.content == TextWidget("first");
  }

  /** The revert test up to its second commit: "first" committed, "second" saved and
      committed. */
  method FirstTwoCommits() returns (t: VersionTracker)
    ensures fresh(t) && fresh(t.store) && t.Valid()
    ensures |t.commits| == 2 && t.GetHistory() == [1, 0]
    ensures RootText(t.store.forest, t.commits[0].root) == "first"
    ensures RootText(t.store.forest, t.commits[1].root) == "second"
  {
    t := FirstCommit();
    var c2 := SaveAndCommit(t, "second");
  }

  /** Reverting to the first commit: a third commit whose snapshot holds "first" again, and
      an unfrozen working copy. */
  method RevertToFirst(t: VersionTracker)
    requires t.Valid() && |t.commits| == 2 && t.GetHistory() == [1, 0]
    requires RootText(t.store.forest, t.commits[0].root) == "first"
    requires RootText(t.store.forest, t.commits[1].root) == "second"
    modifies t, t.store
    ensures t.Valid() && |t.commits| == 3 && t.GetHistory() == [2, 1, 0]
    ensures !Find(t.store.forest, t.workingCopy).value.frozen
    ensures RootText(t.store.forest, t.commits[0].root) == "first"
    ensures RootText(t.store.forest, t.commits[1].root) == "second"
    ensures RootText(t.store.forest, t.commits[2].root) == "first"
  {
    ghost var before := Find(t.store.forest, t.commits[0].root).value;
    var c3 := t.RevertTo(0);
    ghost var w := Find(t.store.forest, t.workingCopy).value;
    ghost var snap := Find(t.store.forest, t.commits[c3].root).value;
    assert w.content == before.content && snap.content == w.content;
    assert !w.frozen;
    assert t.GetHistory() == [c3] + [1, 0];
  }

  /** Saving "fourth" after the revert and committing it. */
  method CommitFourth(t: VersionTracker)
    requires t.Valid() && |t.commits| == 3 && t.GetHistory() == [2, 1, 0]
    requires !Find(t.store.forest, t.workingCopy).value.frozen
    requires RootText(t.store.forest, t.commits[0].root) == "first"
    requires RootText(t.store.forest, t.commits[1].root) == "second"
    requires RootText(t.store.forest, t.commits[2].root) == "first"
    modifies t, t.store
    ensures t.Valid() && |t.commits| == 4 && t.GetHistory() == [3, 2, 1, 0]
    ensures RootText(t.store.forest, t.commits[0].root) == "first"
    ensures RootText(t.store.forest, t.commits[1].root) == "second"
    ensures RootText(t.store.forest, t.commits[2].root) == "first"
    ensures RootText(t.store.forest, t.commits[3].root) == "fourth"
  {
    var c4 := SaveAndCommit(t, "fourth");
    assert t.GetHistory() == [c4] + [2, 1, 0];
  }

  /** The revert test: commit "first", save and commit "second", revert to the first
      commit, save and commit "fourth". The history's root texts, newest first, read
      fourth, first, second, first. */
  method RevertScenario() returns (texts: seq<string>)
    ensures texts == ["fourth", "first", "second", "first"]
  {
    var t := FirstTwoCommits();
    RevertToFirst(t);
    CommitFourth(t);
    var history := t.GetHistory();
    var f, cs := t.store.forest, t.commits;
    assert history[0] == 3 && history[1] == 2 && history[2] == 1 && history[3] == 0;
    texts := [RootText(f, cs[history[0]].root), RootText(f, cs[history[1]].root),
              RootText(f, cs[history[2]].root), RootText(f, cs[history[3]].root)];
  }
}
