# django-widgy tree and versioning engine, modelled in Dafny

django-widgy arranges content objects ("widgets") in ordered trees. Every tree node owns
one content row. The engine has five parts:

- A **registry** of content classes.
- A **relationship validator**. When a content may not sit below another, it says which
  side objects: `ChildWasRejected`, `ParentWasRejected` or `MutualRejection`.
- **Tree mutations**: `add_child`, `add_sibling`, `reposition`, `move`, `delete` and `save`.
  They all respect a per-node **frozen** flag, which makes them raise `InvalidOperation`.
- **Versioning**. A `VersionTracker` holds an editable working copy. `commit` turns it into
  a chain of commits, each holding a frozen clone of the working copy. The tracker also has
  `revert_to`, `get_history` and `has_changes`. Cloning and comparison use `clone_tree`,
  `trees_equal` and content `equal`.
- **Orphan detection** for trackers that nothing refers to any more.

The behaviour modelled is the one the core test module pins down:
`tests/modeltests/core_tests/tests/core.py`. The implementation in `widgy/models.py`
is not part of this model. The widget classes' placement rules are therefore the ones the
assertions imply.

## Layout

| file | module | what it holds |
|---|---|---|
| `outcomes.dfy` | `Outcomes` | the exceptions, `Option`, `Result`, `Outcome` |
| `widgets.dfy` | `Widgets` | content classes, `get_attributes`, `equal`, each class's `valid_parent_of`/`valid_child_of` rule |
| `validation.dfy` | `Validation` | `validate_relationship` |
| `registry.dfy` | `Registries` | the `Registry` class |
| `forests.dfy` | `Forests` | the node table as an ordered forest, queries, and the structural edits `Remove`, `Place`, `SetContent`, `MarkFrozen` |
| `forest_facts.dfy` | `ForestFacts` | lemmas about the forest functions |
| `tree_ops.dfy` | `TreeOps` | the mutation entry points at node level and content level, each as a pure function returning the new forest or the error, with their properties |
| `cloning.dfy` | `Cloning` | `clone_tree`, depth-first order, `trees_equal` |
| `store.dfy` | `Stores` | the `Store` class: the node table as mutable state, with one method per entry point, the freezing loop and `clone_tree` |
| `versioning.dfy` | `Versioning` | commits, `get_history`, and the `VersionTracker` class |
| `orphans.dfy` | `Orphans` | `VersionTracker.objects.orphan()` |
| `scenarios.dfy` | `Scenarios` | the commit, history and revert tests replayed on the classes |

### Modelling choices

- **The node table.** It is a `seq<Tree>` of top-level trees, and node ids are unique
  across the whole table. A commit's snapshot is a top-level tree whose every node is
  frozen (`Forests.Snapshot`).
- **Failure.** Every mutation returns the new forest or the error it raises, so a raised
  error changes nothing. The store methods only assign the new forest on success.
- **Check order.** The frozen gate comes first. For `add_sibling` and `reposition`, the
  next check is for the destination parent. A node placed beside a root has none, and the
  call raises `InvalidTreeMovement` before any validation. Next comes the relationship
  validator against the destination parent. The structural checks come last: moving a
  node into its own subtree raises `InvalidTreeMovement`.
- **`add_sibling` beside a root.** It raises `InvalidTreeMovement`, like `reposition`
  beside a root (core.py:83-84). No test calls `add_sibling` on a root. This is a
  modelling choice: the validator needs a parent to ask.
- **reposition.** With `right=X`, it puts the node just left of X, and `right` wins over
  `parent`. With only `parent=P`, the node becomes P's last child. Validation is against
  the destination's parent, with the moved node's content as the child.
- **`Node.save`.** It is not frozen-gated: the tests freeze a node by saving it.
  `Content.save` is gated.
- **The frozen gate is per node.** Each operation checks only the node it is called on
  (for `delete`, that node's whole subtree; for a move, also the anchor). So `add_sibling`, `move` and `delete` on an unfrozen
  child can still change the children of a frozen parent (`TreeOps.RawAddSibling`,
  `TreeOps.RawMove`, `TreeOps.Delete`). No test decides this case. It cannot arise inside
  a commit's snapshot, where every node is frozen.
- **Orphans.** `orphan()` lists every tracker that no row refers to. A tracker that no
  row ever referred to is therefore an orphan too, not only one whose referrers were all
  deleted.
- **Fixture placement rules**, as the assertions imply them:
  - Layouts take buckets.
  - Bucket takes anything. In the tests it takes buckets (core.py:36-39), RawTextWidgets
    (core.py:218-219) and a ForeignKeyWidget (core.py:569). It refuses only
    CantGoAnywhereWidget, whose own rule refuses.
  - ImmovableBucket takes anything. This is a guess: no assertion places anything in an
    ImmovableBucket.
  - PickyBucket takes RawTextWidgets whose text is not `aasdf`.
  - VowelBucket takes classes whose name starts with a vowel.
  - Leaf widgets take nothing.
  - CantGoAnywhereWidget refuses every parent.

### Readings fixed by the tests

- **Rejection names.** `ChildWasRejected` means the *parent's* rule refused the child.
  `ParentWasRejected` means the *child's* rule refused the parent. The assertions fix this
  reading. At core.py:44-45, a Layout given a RawTextWidget raises `ChildWasRejected`,
  although a RawTextWidget may sit in a bucket (core.py:218-219), so only the Layout's rule
  refuses. At core.py:47-49, a Bucket given a CantGoAnywhereWidget raises
  `ParentWasRejected`, and a Bucket takes other leaves (core.py:218-219, 569), so only the
  widget's rule refuses. At core.py:51-52, the pair where both sides refuse raises
  `MutualRejection`.
- **`revert_to` makes a commit.** In `test_revert` (core.py:296-317), `revert_to` returns
  a value that the test names `commit3`. After one more commit, `get_history` has four
  entries, with texts fourth, first, second, first. So the revert itself added the entry
  that reads `first` in second place.

## Model

| member | source | states |
|---|---|---|
| Registries.Registry.Register | tests/modeltests/core_tests/tests/core.py:178-190 | registering adds the class to the keys; registering a class already there raises and leaves the keys unchanged |
| Registries.Registry.Unregister | tests/modeltests/core_tests/tests/core.py:182-195 | unregistering removes the class from the keys; unregistering an absent class raises and leaves the keys unchanged |
| Registries.RegistryScenario | tests/modeltests/core_tests/tests/core.py:170-195 | each registry test on a fresh registry: the class is a key after register, not after unregister, a second register raises AlreadyRegistered, and unregistering an unknown class raises NotRegistered |
| Validation.ValidateRelationship | tests/modeltests/core_tests/tests/core.py:44-53 | accept exactly when both sides agree; ChildWasRejected exactly when only the parent refuses; ParentWasRejected exactly when only the child refuses; MutualRejection exactly when both refuse |
| Validation.ValidateClassCases | tests/modeltests/core_tests/tests/core.py:44-53 | Layout/RawTextWidget is ChildWasRejected, Bucket/CantGoAnywhereWidget is ParentWasRejected, Layout/CantGoAnywhereWidget is MutualRejection |
| Validation.ValidateInstanceCases | tests/modeltests/core_tests/tests/core.py:55-116 | PickyBucket refuses text 'aasdf' and a Layout, and accepts text 'hello'; VowelBucket takes ImmovableBucket and refuses Bucket |
| Validation.ClassCheckAgreesWithInstanceCheck | tests/modeltests/core_tests/tests/core.py:55-70 | checking the class before the instance changes no verdict; an accepted class is refused only by the parent's instance rule |
| Widgets.GetAttributesCases | tests/modeltests/core_tests/tests/core.py:154-168 | get_attributes is empty for Bucket and AnotherLayout, the text for RawTextWidget, and the key held for ForeignKeyWidget |
| Widgets.ContentEqualCases | tests/modeltests/core_tests/tests/core.py:239-250 | texts 'a' and 'b' are not equal, 'a' and 'a' are, and two AnotherLayout contents are |
| Widgets.Attributes | tests/modeltests/core_tests/tests/core.py:154-168 | get_attributes: the class's declared fields that the row holds; its values are fixed by Widgets.GetAttributesCases |
| Widgets.Equal | tests/modeltests/core_tests/tests/core.py:239-250 | equal: the attribute views agree, whatever classes hold them; its cases are Widgets.ContentEqualCases, and Cloning.SetContentBreaksTreesEqual lifts it to whole trees |
| Widgets.ValidParentOf | tests/modeltests/core_tests/tests/core.py:44-70 | valid_parent_of of each fixture class; the verdicts it yields are Validation.ValidateClassCases and Validation.ValidateInstanceCases |
| Widgets.ValidChildOf | tests/modeltests/core_tests/tests/core.py:47-52 | valid_child_of: only CantGoAnywhereWidget refuses a parent; Validation.ValidateClassCases shows it deciding ParentWasRejected and MutualRejection |
| TreeOps.AddChildEffect | tests/modeltests/core_tests/tests/core.py:270-282 | add_child appends exactly the new node as the parent's last child, a fresh unfrozen leaf, and adds exactly its id; every old node keeps its content and frozen flag, and every node but the parent keeps its children |
| TreeOps.AddChild | tests/modeltests/core_tests/tests/core.py:55-70 | content-level add_child: frozen gate, then the validator, then the node-level add_child; its properties are TreeOps.AddChildRejected, TreeOps.AddChildAccepted and TreeOps.AddChildEffect |
| TreeOps.AddChildAccepted | tests/modeltests/core_tests/tests/core.py:64-66 | an add_child on an unfrozen parent that the validator accepts is the node-level add_child and succeeds |
| TreeOps.AddChildRejected | tests/modeltests/core_tests/tests/core.py:55-70 | on an unfrozen parent, add_child fails if and only if the validator refuses, and then raises the validator's error |
| TreeOps.AddSiblingEffect | tests/modeltests/core_tests/tests/core.py:419-420 | add_sibling inserts exactly the new node just before or just after the node among its parent's children; every old node keeps its content and frozen flag, and every node but the parent keeps its children |
| TreeOps.AddSibling | tests/modeltests/core_tests/tests/core.py:419-420 | content-level add_sibling: frozen gate, then the parent check, then the validator against the parent, then the node-level add_sibling; its properties are TreeOps.AddSiblingValidated, TreeOps.AddSiblingAtRootRefused and TreeOps.AddSiblingEffect |
| TreeOps.AddSiblingValidated | tests/modeltests/core_tests/tests/core.py:419-420 | on an unfrozen node with a parent, add_sibling raises the validator's refusal, and is otherwise the node-level add_sibling, which succeeds |
| TreeOps.AddSiblingAtRootEffect | tests/modeltests/core_tests/tests/core.py:396-397 | the node-level add_sibling on a root, which the test calls on a frozen root, succeeds on an unfrozen one: the new node becomes a root just before or just after it, and every old node keeps its content, frozen flag and children |
| TreeOps.AddSiblingAtRootRefused | tests/modeltests/core_tests/tests/core.py:83-84 | the content-level add_sibling on an unfrozen root raises InvalidTreeMovement, as reposition beside a root does |
| TreeOps.MoveEffect | tests/modeltests/core_tests/tests/core.py:77-104 | a move keeps ids unique, keeps the same ids, carries the moved subtree whole, and leaves every node outside it in place with its content and frozen flag |
| TreeOps.MoveKids | tests/modeltests/core_tests/tests/core.py:77-104 | after a move, every other node's children are the old ones without the moved node, with the moved node at the anchor |
| TreeOps.MoveSwapsSiblings | tests/modeltests/core_tests/tests/core.py:86-91 | moving the second of two unfrozen children just left of the first succeeds and swaps them |
| TreeOps.MovePutsBefore | tests/modeltests/core_tests/tests/core.py:98-104 | moving an unfrozen node left of an unfrozen X outside its subtree succeeds and puts it immediately before X among X's siblings |
| TreeOps.RawMove | tests/modeltests/core_tests/tests/core.py:378-400 | Node.move: frozen endpoints raise InvalidOperation, a move into the node's own subtree raises InvalidTreeMovement, otherwise the subtree is taken out and put at the anchor; its properties are TreeOps.MoveEffect, TreeOps.MoveKids, TreeOps.MoveSwapsSiblings, TreeOps.MovePutsBefore and TreeOps.FrozenDestinationRefused |
| TreeOps.RepositionIntoOwnSubtreeRefused | tests/modeltests/core_tests/tests/core.py:80-81 | repositioning into the node's own subtree fails, with InvalidTreeMovement once the frozen and validation checks pass |
| TreeOps.RepositionBesideRootRefused | tests/modeltests/core_tests/tests/core.py:83-84 | repositioning beside a root fails, with InvalidTreeMovement when neither endpoint is frozen |
| TreeOps.RepositionRejected | tests/modeltests/core_tests/tests/core.py:93-96 | a destination parent that refuses the moved content makes reposition raise that refusal |
| TreeOps.RepositionIsValidatedMove | tests/modeltests/core_tests/tests/core.py:98-104 | a successful reposition had a destination parent that accepts the content, and equals the move to the anchor |
| TreeOps.RepositionSucceeds | tests/modeltests/core_tests/tests/core.py:98-104 | conversely, with unfrozen endpoints, an anchor outside the node's subtree and a destination parent that accepts the content, reposition succeeds and equals the move to the anchor |
| TreeOps.Reposition | tests/modeltests/core_tests/tests/core.py:77-104 | reposition: frozen gate, destination parent, validator, then the move; its properties are TreeOps.RepositionBesideRootRefused, TreeOps.RepositionIntoOwnSubtreeRefused, TreeOps.RepositionRejected, TreeOps.RepositionFrozenAnchorRefused, TreeOps.RepositionIsValidatedMove and TreeOps.RepositionSucceeds |
| TreeOps.DeleteEffect | tests/modeltests/core_tests/tests/core.py:232-237 | delete removes exactly the ids of the node's subtree, keeps the rest unique, and leaves every remaining node with its content and frozen flag |
| TreeOps.DeleteKids | tests/modeltests/core_tests/tests/core.py:232-237 | delete takes the node out of its parent's children and leaves every other children list as it was |
| TreeOps.Delete | tests/modeltests/core_tests/tests/core.py:360-376 | delete: refused with InvalidOperation when any node of the subtree is frozen, otherwise the subtree is removed; its properties are TreeOps.DeleteEffect, TreeOps.DeleteKids and TreeOps.FrozenTargetRefused |
| TreeOps.SaveEffect | tests/modeltests/core_tests/tests/core.py:258-261 | save changes the content of that node only; ids, children and frozen flags stay |
| TreeOps.Save | tests/modeltests/core_tests/tests/core.py:327-338 | Content.save: refused with InvalidOperation on a frozen node, otherwise the content is replaced; its properties are TreeOps.SaveEffect and TreeOps.FrozenTargetRefused |
| TreeOps.FrozenTargetRefused | tests/modeltests/core_tests/tests/core.py:360-400 | every entry point called on a frozen node raises InvalidOperation |
| TreeOps.FrozenDestinationRefused | tests/modeltests/core_tests/tests/core.py:378-400 | a move whose anchor node is frozen raises InvalidOperation |
| TreeOps.RepositionFrozenAnchorRefused | tests/modeltests/core_tests/tests/core.py:402-424 | a reposition whose anchor (the right node, else the parent) is frozen raises InvalidOperation |
| TreeOps.SealedTreeRefusesEverything | tests/modeltests/core_tests/tests/core.py:327-358 | every node of a committed (fully frozen) tree refuses every operation with InvalidOperation |
| TreeOps.SealedTreesSurvive | tests/modeltests/core_tests/tests/core.py:327-358 | a successful operation keeps every fully frozen top-level tree as it was |
| TreeOps.SnapshotsSurvive | tests/modeltests/core_tests/tests/core.py:270-294 | a successful operation leaves every commit snapshot in place and unchanged |
| Stores.Store.AddRoot | tests/modeltests/core_tests/tests/core.py:252-254 | add_root appends an unfrozen one-node tree with a fresh id and keeps every snapshot |
| Stores.Store.Run | tests/modeltests/core_tests/tests/core.py:402-424 | an entry point on the store either installs the operation's new forest, or raises and leaves the forest exactly as it was |
| Stores.Store.SetFrozen | tests/modeltests/core_tests/tests/core.py:360-365 | setting is_frozen marks that one node frozen |
| Stores.Store.FreezeTree | tests/modeltests/core_tests/tests/core.py:402-406 | the loop over the depth-first order freezes exactly the subtree, which is then fully frozen |
| Stores.Store.CloneTree | tests/modeltests/core_tests/tests/core.py:198-215 | clone_tree appends a new tree that mirrors the original and is trees_equal to it, frozen or not as asked, and changes no existing node |
| Cloning.CloneMirrors | tests/modeltests/core_tests/tests/core.py:198-207 | a clone has the shape and the contents of the original |
| Cloning.CloneIds | tests/modeltests/core_tests/tests/core.py:198-215 | the clone's ids are fresh and consecutive in depth-first order |
| Cloning.CloneForest | tests/modeltests/core_tests/tests/core.py:198-215 | clone_tree on a forest: as many trees as the original, and exactly as many new ids as the original has nodes; Cloning.CloneIds, Cloning.CloneMirrors and Cloning.CloneFrozen state the rest |
| Cloning.CloneFrozen | tests/modeltests/core_tests/tests/core.py:327-340 | a clone is fully frozen when freeze is set, and has no frozen node otherwise |
| Cloning.MirrorsSameAt | tests/modeltests/core_tests/tests/core.py:198-207 | mirroring trees agree in depth-first order position by position: content and child count |
| Cloning.ClonePassesCheck | tests/modeltests/core_tests/tests/core.py:198-207 | a clone passes the clone test's per-node check with the original-versus-copy attribute comparison |
| Cloning.AsWrittenMissesAttributes | tests/modeltests/core_tests/tests/core.py:207 | the per-node check as written accepts two nodes with different texts |
| Cloning.CloneTreesEqual | tests/modeltests/core_tests/tests/core.py:232-235 | trees_equal holds between a tree and its clone |
| Cloning.TreesEqual | tests/modeltests/core_tests/tests/core.py:232-237 | trees_equal: the depth-first orders match position by position in content and child count; its properties are Cloning.CloneTreesEqual, Cloning.TreesEqualIsEquivalence, Cloning.DeleteBreaksTreesEqual, Cloning.GraftBreaksTreesEqual and Cloning.SetContentBreaksTreesEqual |
| Cloning.DeleteBreaksTreesEqual | tests/modeltests/core_tests/tests/core.py:232-237 | deleting a node below the root of an equal tree breaks trees_equal |
| Cloning.GraftBreaksTreesEqual | tests/modeltests/core_tests/tests/core.py:592-600 | adding a node into an equal tree breaks trees_equal |
| Cloning.SetContentBreaksTreesEqual | tests/modeltests/core_tests/tests/core.py:239-245 | saving attributes that are not equal to a node's current ones breaks trees_equal against a tree that was equal before the save |
| Cloning.TreesEqualIsEquivalence | tests/modeltests/core_tests/tests/core.py:232-237 | trees_equal is reflexive, symmetric and transitive |
| Versioning.History | tests/modeltests/core_tests/tests/core.py:319-325 | get_history is empty without a head; otherwise it starts at the head, goes newest first, each entry the parent of the one before, and ends at a commit with no parent |
| Versioning.HistoryAppend | tests/modeltests/core_tests/tests/core.py:296-317 | later commits do not change the history of an earlier head |
| Versioning.NewCommitHistory | tests/modeltests/core_tests/tests/core.py:252-268 | a commit on top of the head puts itself in front of the head's history |
| Versioning.ChainHistory | tests/modeltests/core_tests/tests/core.py:319-325 | after n commits made one on another, the commits are linked and the history is n-1, ..., 0 |
| Versioning.ChainPrefix | tests/modeltests/core_tests/tests/core.py:319-325 | in such a chain, the history from commit k is k, k-1, ..., 0 |
| Versioning.AddChildMakesChanges | tests/modeltests/core_tests/tests/core.py:592-600 | adding a child into a working copy that matched the head makes has_changes true |
| Versioning.VersionTracker.constructor | tests/modeltests/core_tests/tests/core.py:592-595 | a new tracker has no head and an empty history, and has_changes is true |
| Versioning.VersionTracker.GetHistory | tests/modeltests/core_tests/tests/core.py:319-325 | get_history of the tracker's head; its properties are Versioning.History, Versioning.HistoryAppend and Versioning.ChainHistory |
| Versioning.SaveMakesChanges | tests/modeltests/core_tests/tests/core.py:258-265 | saving new, unequal attributes on any node of a working copy that matched the head makes has_changes true, with the head's snapshot untouched |
| Versioning.VersionTracker.HasChanges | tests/modeltests/core_tests/tests/core.py:592-600 | has_changes: there is no head, or the working copy is not trees_equal to the head's snapshot; the constructor, Versioning.VersionTracker.Commit, Versioning.AddChildMakesChanges and Versioning.SaveMakesChanges state when it holds |
| Versioning.VersionTracker.Commit | tests/modeltests/core_tests/tests/core.py:252-268 | commit sets the head to the new commit, whose parent is the old head and whose frozen root is a new node other than the working copy; it mirrors the working copy; every node that existed keeps its subtree, so earlier snapshots stay; the next key moves past the snapshot's nodes; the history gains the commit in front; has_changes is false |
| Versioning.VersionTracker.RevertTo | tests/modeltests/core_tests/tests/core.py:296-317 | revert_to makes the working copy a fresh unfrozen copy of the commit's tree and commits it, with the new snapshot trees_equal to the reverted-to one |
| Versioning.VersionTracker.Edit | tests/modeltests/core_tests/tests/core.py:258-261 | an edit of the working copy runs the entry point on the store, uses up one key exactly when it created a node, and leaves every commit's snapshot as it was |
| Orphans.Referrers | tests/modeltests/core_tests/tests/core.py:468-484 | the rows referring to a tracker are exactly the links' rows for it |
| Orphans.Orphans | tests/modeltests/core_tests/tests/core.py:486-526 | orphan() lists exactly the trackers with no referrer |
| Orphans.DeleteRows | tests/modeltests/core_tests/tests/core.py:486-526 | deleting rows leaves exactly the links of the other rows |
| Orphans.OrphanWhenReferrersGone | tests/modeltests/core_tests/tests/core.py:486-526 | after deletions, a tracker is an orphan if and only if every row that referred to it was deleted |
| Orphans.OrphanExactlyWhenAllGone | tests/modeltests/core_tests/tests/core.py:486-526 | for one tracker, orphan() after deletions is [t] when every row that referred to it was deleted and empty otherwise |
| Orphans.DeletionOrderIrrelevant | tests/modeltests/core_tests/tests/core.py:486-526 | the orphans depend on which rows were deleted, not on the order |
| Orphans.ThreeReferrers | tests/modeltests/core_tests/tests/core.py:486-526 | with three referrers, orphan() is [vt] exactly when all three are deleted, else empty |
| Scenarios.GetHistoryScenario | tests/modeltests/core_tests/tests/core.py:319-325 | n commits in a row give a history equal to the commits made, reversed |
| Scenarios.SetText | tests/modeltests/core_tests/tests/core.py:258-261 | saving a text on the unfrozen working copy stores it and changes no snapshot |
| Scenarios.FirstTwoCommits | tests/modeltests/core_tests/tests/core.py:252-268 | after commit, save 'second', commit, the history is [1, 0] and the snapshots read 'first' and 'second' |
| Scenarios.RevertScenario | tests/modeltests/core_tests/tests/core.py:296-317 | the revert test's history reads fourth, first, second, first |

## Left out

- Query counts, prefetching and `get_history_list` (core.py:217-230, 450-466, 603-734).
  They measure database round trips, not results. `depth_first_order` is modelled as a
  pure function.
- `UnknownWidget` for unresolvable content types (core.py:118-152). It comes from ORM
  content-type resolution.
- `ProtectedError` protection of rows that frozen widgets refer to (core.py:543-583). It is
  a database foreign-key constraint. The model only covers the `InvalidOperation` side:
  deleting a frozen node is refused.
- `test_field_create` (core.py:585-590). It is a Django field descriptor.
- `daisydiff` (core.py:735-751). It is an external diff service.
- The `expectedFailure` tests (core.py:426-448, 528-541). Their intended behaviour is
  undecided.
- `tests/modeltests/core_tests/tests/forms.py`, which covers form and HTML generation.
- `post_create`, `make_a_nice_tree` and the fixture page models. The base test module and
  `widgy/models.py` are not part of this model. The fixture trees are not built concretely:
  the reposition and structure properties are stated for every forest with the relevant
  shape.
- `test_deep` (core.py:32-42). The model has no depth limit.
- `to_json` and the proxy-model storage detail (core.py:72-75, 106-116). Only the proxy
  class's placement rule is modelled, in `ValidateInstanceCases`.
- `clone_tree`'s default of `freeze=True`. Every call in the model passes the flag:
  `Commit` passes `true` and `RevertTo` passes `false`. The tests need exactly that:
  snapshots refuse edits (core.py:327-358), and the working copy after `revert_to` takes
  a save (core.py:310-312).
- treebeard's other move positions (`first-child`, `first-sibling`, `sorted-child`,
  `sorted-sibling`). The tests only move a node just left of another (`right=`) or to
  the end of a parent (`parent=`), so `Anchor` has the three positions those need.
- Commit authors and timestamps. They are data with no behaviour in the tests.
- Stores.Store.Run: a new node's id is the store's next primary key. How the database hands
  out keys is not modelled.
- Versioning.VersionTracker.Edit: it requires that a delete does not remove the working
  copy itself. The tests never do that, and the source's behaviour in that case is not
  shown.

## Findings

| source | as written | input that shows it | evidently intended | confidence | as-written member | corrected member |
|---|---|---|---|---|---|---|
| tests/modeltests/core_tests/tests/core.py:207 | the clone test compares the copy's attributes with themselves, so the check holds whatever the attributes are | an original RawTextWidget with text 'a' against a copy with text 'b' passes the check | compare the original's attributes with the copy's | not executed | Cloning.AsWrittenMissesAttributes | Cloning.ClonePassesCheck |
