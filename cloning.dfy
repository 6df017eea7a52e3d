/** clone_tree, trees_equal and the depth-first view they share. */
module Cloning {
  import opened Outcomes
  import opened Widgets
  import opened Forests
  import opened ForestFacts

  /** The ids lo, lo + 1, ..., hi - 1. */
  function Range(lo: nat, hi: nat): seq<NodeId>
    requires lo <= hi
    decreases hi - lo
  {
    if lo == hi then [] else [lo] + Range(lo + 1, hi)
  }

  lemma {:induction false} RangeIndex(lo: nat, hi: nat)
    requires lo <= hi
    ensures |Range(lo, hi)| == hi - lo
    ensures forall i :: 0 <= i < hi - lo ==> Range(lo, hi)[i] == lo + i
    decreases hi - lo
  {
    if lo < hi {
      RangeIndex(lo + 1, hi);
    }
  }

  lemma {:induction false} RangeSplit(lo: nat, mid: nat, hi: nat)
    requires lo <= mid <= hi
    ensures Range(lo, mid) + Range(mid, hi) == Range(lo, hi)
  {
    RangeIndex(lo, mid);
    RangeIndex(mid, hi);
    RangeIndex(lo, hi);
  }

  /** clone_tree over a forest: every node is copied depth-first with the same content and
      the same child order, and the copies take the ids `next`, `next + 1`, ... in
      depth-first order; `freeze` says whether the copies are frozen. The second component
      is the first id left unused. */
  function CloneForest(ts: Forest, next: NodeId, freeze: bool): (r: (Forest, NodeId))
    ensures |r.0| == |ts|
    ensures r.1 == next + |Ids(ts)|
  {
    if ts == [] then ([], next)
    else
      var (kids, afterKids) := CloneForest(ts[0].children, next + 1, freeze);
      var (rest, afterRest) := CloneForest(ts[1..], afterKids, freeze);
      ([Node(next, ts[0].content, freeze, kids)] + rest, afterRest)
  }

  /** `x` and `y` have the same shape and the same content at every position. */
  predicate Mirrors(x: Forest, y: Forest)
  {
    |x| == |y| &&
    (x == [] || (x[0].content == y[0].content && Mirrors(x[0].children, y[0].children) && Mirrors(x[1..], y[1..])))
  }

  /** Two nodes trees_equal compares alike: equal attributes and as many children. */
  predicate Matches(s: Tree, t: Tree)
  {
    Equal(s.content, t.content) && |s.children| == |t.children|
  }

  predicate Pointwise(p: seq<Tree>, q: seq<Tree>)
  {
    |p| == |q| && forall i :: 0 <= i < |p| ==> Matches(p[i], q[i])
  }

  /** trees_equal: the depth-first orders of both trees are equally long and match position
      by position. */
  predicate TreesEqual(a: Tree, b: Tree)
  {
    Pointwise(DepthFirst([a]), DepthFirst([b]))
  }

  // ---------------------------------------------------------------------------------
  // Properties of the clone

  /** The clone's ids are fresh and consecutive, in depth-first order. */
  lemma {:induction false} CloneIds(ts: Forest, next: NodeId, freeze: bool)
    ensures Ids(CloneForest(ts, next, freeze).0) == Range(next, CloneForest(ts, next, freeze).1)
  {
    if ts != [] {
      var (kids, k) := CloneForest(ts[0].children, next + 1, freeze);
      var (rest, e) := CloneForest(ts[1..], k, freeze);
      CloneIds(ts[0].children, next + 1, freeze);
      CloneIds(ts[1..], k, freeze);
      IdsCons(Node(next, ts[0].content, freeze, kids), rest);
      RangeSplit(next + 1, k, e);
    }
  }

  /** A Range holds no id twice. */
  lemma RangeUnique(lo: nat, hi: nat)
    requires lo <= hi
    ensures forall x :: multiset(Range(lo, hi))[x] <= 1
    ensures forall x :: x in Range(lo, hi) <==> lo <= x < hi
  {
    RangeIndex(lo, hi);
    forall x: NodeId ensures multiset(Range(lo, hi))[x] <= 1 && (x in Range(lo, hi) <==> lo <= x < hi) {
      RangeCount(lo, hi, x);
    }
  }

  lemma {:induction false} RangeCount(lo: nat, hi: nat, x: NodeId)
    requires lo <= hi
    ensures multiset(Range(lo, hi))[x] == if lo <= x < hi then 1 else 0
    decreases hi - lo
  {
    if lo < hi {
      RangeCount(lo + 1, hi, x);
    }
  }

  /** The clone has the shape and the content of the original. */
  lemma {:induction false} CloneMirrors(ts: Forest, next: NodeId, freeze: bool)
    ensures Mirrors(CloneForest(ts, next, freeze).0, ts)
  {
    if ts != [] {
      var (kids, k) := CloneForest(ts[0].children, next + 1, freeze);
      var r := CloneForest(ts, next, freeze).0;
      CloneMirrors(ts[0].children, next + 1, freeze);
      CloneMirrors(ts[1..], k, freeze);
      assert r[0].children == kids;
      assert r[1..] == CloneForest(ts[1..], k, freeze).0;
    }
  }

  /** Every copy is frozen exactly when `freeze` is set. */
  lemma {:induction false} CloneFrozen(ts: Forest, next: NodeId, freeze: bool)
    ensures freeze ==> AllFrozen(CloneForest(ts, next, freeze).0)
    ensures !freeze ==> !AnyFrozen(CloneForest(ts, next, freeze).0)
  {
    if ts != [] {
      var (kids, k) := CloneForest(ts[0].children, next + 1, freeze);
      var r := CloneForest(ts, next, freeze).0;
      CloneFrozen(ts[0].children, next + 1, freeze);
      CloneFrozen(ts[1..], k, freeze);
      assert r[0].children == kids && r[0].frozen == freeze;
      assert r[1..] == CloneForest(ts[1..], k, freeze).0;
    }
  }

  // ---------------------------------------------------------------------------------
  // Depth-first order and trees_equal

  lemma {:induction false} DepthFirstLength(ts: Forest)
    ensures |DepthFirst(ts)| == |Ids(ts)|
  {
    if ts != [] {
      DepthFirstLength(ts[0].children);
      DepthFirstLength(ts[1..]);
    }
  }

  /** Forests that mirror each other match in depth-first order. */
  lemma MirrorsPointwise(x: Forest, y: Forest)
    requires Mirrors(x, y)
    ensures Pointwise(DepthFirst(x), DepthFirst(y))
  {
    MirrorsSameAt(x, y);
  }

  // ---------------------------------------------------------------------------------
  // The per-node check of the clone test

  /** Position by position along two depth-first orders (zip stops at the shorter one):
      same number of children, same content class, and the attribute comparison made by
      the test as written, which compares the copy's attributes with themselves. */
  predicate CloneCheckAsWritten(p: seq<Tree>, q: seq<Tree>)
  {
    forall i :: 0 <= i < |p| && i < |q| ==>
      |p[i].children| == |q[i].children| && p[i].content.kind == q[i].content.kind &&
      Attributes(q[i].content) == Attributes(q[i].content)
  }

  /** The same check comparing the original's attributes with the copy's. */
  predicate CloneCheck(p: seq<Tree>, q: seq<Tree>)
  {
    forall i :: 0 <= i < |p| && i < |q| ==>
      |p[i].children| == |q[i].children| && p[i].content.kind == q[i].content.kind &&
      Attributes(p[i].content) == Attributes(q[i].content)
  }

  /** The check as written passes two single-node trees whose texts differ: it cannot tell
      a faithful copy from one that lost its attributes. */
  lemma AsWrittenMissesAttributes()
    ensures var x, y := Node(0, TextWidget("a"), false, []), Node(1, TextWidget("b"), true, []);
      CloneCheckAsWritten(DepthFirst([x]), DepthFirst([y])) && !Equal(x.content, y.content)
      && !CloneCheck(DepthFirst([x]), DepthFirst([y]))
  {
    var x, y := Node(0, TextWidget("a"), false, []), Node(1, TextWidget("b"), true, []);
    assert DepthFirst([x]) == [x] && DepthFirst([y]) == [y] by {
      assert [x][1..] == [] && [y][1..] == [];
    }
    ContentEqualCases();
  }

  /** Mirroring forests agree node by node in depth-first order: same content and as many
      children. */
  lemma {:induction false} MirrorsSameAt(x: Forest, y: Forest)
    requires Mirrors(x, y)
    ensures |DepthFirst(x)| == |DepthFirst(y)|
    ensures forall i :: 0 <= i < |DepthFirst(x)| ==>
      DepthFirst(x)[i].content == DepthFirst(y)[i].content &&
      |DepthFirst(x)[i].children| == |DepthFirst(y)[i].children|
  {
    if x != [] {
      MirrorsSameAt(x[0].children, y[0].children);
      MirrorsSameAt(x[1..], y[1..]);
      var dx, dy := DepthFirst(x), DepthFirst(y);
      var kx, ky := DepthFirst(x[0].children), DepthFirst(y[0].children);
      var rx, ry := DepthFirst(x[1..]), DepthFirst(y[1..]);
      forall i | 0 <= i < |dx|
        ensures dx[i].content == dy[i].content && |dx[i].children| == |dy[i].children|
      {
        if 0 < i <= |kx| {
          assert dx[i] == kx[i - 1] && dy[i] == ky[i - 1];
        } else if i > |kx| {
          assert dx[i] == rx[i - 1 - |kx|] && dy[i] == ry[i - 1 - |ky|];
        }
      }
    }
  }

  /** A clone passes the clone test's check with the attribute comparison it intends. */
  lemma ClonePassesCheck(t: Tree, next: NodeId, freeze: bool)
    ensures CloneCheck(DepthFirst([t]), DepthFirst(CloneForest([t], next, freeze).0))
  {
    var c := CloneForest([t], next, freeze).0;
    CloneMirrors([t], next, freeze);
    MirrorsSameAt(c, [t]);
  }

  /** trees_equal holds between a tree and its clone, frozen or not. */
  lemma CloneTreesEqual(t: Tree, next: NodeId, freeze: bool)
    ensures |CloneForest([t], next, freeze).0| == 1
    ensures TreesEqual(t, CloneForest([t], next, freeze).0[0])
  {
    var c := CloneForest([t], next, freeze).0;
    CloneMirrors([t], next, freeze);
    assert c == [c[0]];
    MirrorsPointwise(c, [t]);
    PointwiseSymmetric(DepthFirst(c), DepthFirst([t]));
  }

  lemma PointwiseSymmetric(p: seq<Tree>, q: seq<Tree>)
    requires Pointwise(p, q)
    ensures Pointwise(q, p)
  {
  }

  /** trees_equal is reflexive, symmetric and transitive. */
  lemma TreesEqualIsEquivalence(a: Tree, b: Tree, c: Tree)
    ensures TreesEqual(a, a)
    ensures TreesEqual(a, b) ==> TreesEqual(b, a)
    ensures TreesEqual(a, b) && TreesEqual(b, c) ==> TreesEqual(a, c)
  {
    var p, q, r := DepthFirst([a]), DepthFirst([b]), DepthFirst([c]);
    if TreesEqual(a, b) {
      PointwiseSymmetric(p, q);
      if TreesEqual(b, c) {
        assert Pointwise(p, r);
      }
    }
  }

  /** Trees that are trees_equal have the same number of nodes. */
  lemma TreesEqualSize(a: Tree, b: Tree)
    requires TreesEqual(a, b)
    ensures |TreeIds(a)| == |TreeIds(b)|
  {
    DepthFirstLength([a]);
    DepthFirstLength([b]);
    IdsSingleton(a);
    IdsSingleton(b);
  }

  /** Removing a present node makes a forest smaller. */
  lemma {:induction false} RemoveShrinks(ts: Forest, n: NodeId)
    ensures |Ids(Remove(ts, n))| <= |Ids(ts)|
    ensures n in Ids(ts) ==> |Ids(Remove(ts, n))| < |Ids(ts)|
  {
    if ts != [] {
      RemoveShrinks(ts[0].children, n);
      RemoveShrinks(ts[1..], n);
      if ts[0].id != n {
        IdsCons(Prune(ts[0], n), Remove(ts[1..], n));
      }
    }
  }

  /** Deleting a node below the root of one side breaks trees_equal. */
  lemma DeleteBreaksTreesEqual(a: Tree, b: Tree, n: NodeId)
    requires TreesEqual(a, b) && n in Ids(b.children)
    ensures !TreesEqual(a, Prune(b, n))
  {
    TreesEqualSize(a, b);
    RemoveShrinks(b.children, n);
    if TreesEqual(a, Prune(b, n)) {
      TreesEqualSize(a, Prune(b, n));
    }
  }

  /** Grafting a subtree into one side breaks trees_equal. */
  lemma GraftBreaksTreesEqual(a: Tree, b: Tree, an: Anchor, sub: Tree)
    requires TreesEqual(a, b) && Unique([b])
    requires an == LastChildOf(b.id) || AnchorId(an) in Ids(b.children)
    ensures !TreesEqual(a, Graft(b, an, sub))
  {
    TreesEqualSize(a, b);
    var g := Graft(b, an, sub);
    var extra: Forest := if an == LastChildOf(b.id) then [sub] else [];
    IdsSingleton(b);
    assert b.id !in Ids(b.children) && Unique(b.children) by {
      UniqueSplit([b]);
    }
    IdsConcat(Place(b.children, an, sub), extra);
    IdsSingleton(sub);
    if AnchorId(an) in Ids(b.children) {
      PlaceIds(b.children, an, sub);
      assert |Ids(Place(b.children, an, sub))| > |Ids(b.children)| by {
        assert |multiset(Ids(Place(b.children, an, sub)))| == |multiset(Ids(b.children))| + |multiset(TreeIds(sub))|;
      }
    } else {
      PlaceAbsent(b.children, an, sub);
    }
    if TreesEqual(a, g) {
      TreesEqualSize(a, g);
    }
  }

  /** Where a present node sits in depth-first order. */
  lemma {:induction false} FindPosition(ts: Forest, n: NodeId) returns (i: nat)
    requires n in Ids(ts)
    ensures i < |DepthFirst(ts)| && DepthFirst(ts)[i] == Find(ts, n).value
  {
    var k, rest := DepthFirst(ts[0].children), DepthFirst(ts[1..]);
    assert DepthFirst(ts) == [ts[0]] + k + rest;
    if ts[0].id == n {
      i := 0;
    } else if n in Ids(ts[0].children) {
      var j := FindPosition(ts[0].children, n);
      i := 1 + j;
    } else {
      var j := FindPosition(ts[1..], n);
      i := 1 + |k| + j;
    }
  }

  /** Editing one node's content leaves the depth-first order in place: the same ids and
      child counts at every position, and the new content exactly where the id is `n`. */
  lemma {:induction false} SetContentDepthFirst(ts: Forest, n: NodeId, c: Content)
    ensures |SetContent(ts, n, c)| == |ts|
    ensures |DepthFirst(SetContent(ts, n, c))| == |DepthFirst(ts)|
    ensures forall i :: 0 <= i < |DepthFirst(ts)| ==>
      var s, t := DepthFirst(SetContent(ts, n, c))[i], DepthFirst(ts)[i];
      s.id == t.id && |s.children| == |t.children| &&
      s.content == if t.id == n then c else t.content
  {
    if ts != [] {
      var e := SetContent(ts, n, c);
      SetContentDepthFirst(ts[0].children, n, c);
      SetContentDepthFirst(ts[1..], n, c);
      assert e[0].children == SetContent(ts[0].children, n, c) && e[1..] == SetContent(ts[1..], n, c);
      var de, dt := DepthFirst(e), DepthFirst(ts);
      var ke, kt := DepthFirst(e[0].children), DepthFirst(ts[0].children);
      var re, rt := DepthFirst(e[1..]), DepthFirst(ts[1..]);
      assert de == [e[0]] + ke + re && dt == [ts[0]] + kt + rt;
      forall i | 0 <= i < |dt|
        ensures de[i].id == dt[i].id && |de[i].children| == |dt[i].children| &&
          de[i].content == if dt[i].id == n then c else dt[i].content
      {
        if 0 < i <= |kt| {
          assert de[i] == ke[i - 1] && dt[i] == kt[i - 1];
        } else if i > |kt| {
          assert de[i] == re[i - 1 - |ke|] && dt[i] == rt[i - 1 - |kt|];
        }
      }
    }
  }

  /** Saving new attributes on a node of one side breaks trees_equal: the edited node and
      its counterpart no longer compare equal. */
  lemma SetContentBreaksTreesEqual(a: Tree, b: Tree, n: NodeId, c: Content)
    requires TreesEqual(a, b) && n in TreeIds(b)
    requires !Equal(Find([b], n).value.content, c)
    ensures SetContent([b], n, c) == [SetContent([b], n, c)[0]]
    ensures !TreesEqual(a, SetContent([b], n, c)[0])
  {
    IdsSingleton(b);
    var e := SetContent([b], n, c);
    SetContentDepthFirst([b], n, c);
    assert e == [e[0]];
    var i := FindPosition([b], n);
    assert Matches(DepthFirst([a])[i], DepthFirst([b])[i]);
  }
}
