/** Facts about the forest queries and structural edits: what ids an edit leaves, where
    it puts a subtree, and which trees it leaves alone. */
module ForestFacts {
  import opened Outcomes
  import opened Widgets
  import opened Forests

  /** `s` with every occurrence of `x` taken out. */
  function Without(s: seq<NodeId>, x: NodeId): seq<NodeId>
  {
    if s == [] then [] else (if s[0] == x then [] else [s[0]]) + Without(s[1..], x)
  }

  /** The sibling ids as Place leaves them: `s` put beside every id the anchor names. */
  function PlaceTop(ids: seq<NodeId>, a: Anchor, s: NodeId): seq<NodeId>
  {
    if ids == [] then []
    else
      (if a == LeftOf(ids[0]) then [s, ids[0]]
       else if a == RightOf(ids[0]) then [ids[0], s]
       else [ids[0]])
      + PlaceTop(ids[1..], a, s)
  }

  // ---------------------------------------------------------------------------------
  // Basic shape facts

  lemma {:induction false} IdsConcat(a: Forest, b: Forest)
    ensures Ids(a + b) == Ids(a) + Ids(b)
  {
    if a != [] {
      assert (a + b)[0] == a[0];
      assert (a + b)[1..] == a[1..] + b;
      IdsConcat(a[1..], b);
    } else {
      assert a + b == b;
    }
  }

  lemma {:induction false} TopIdsConcat(a: Forest, b: Forest)
    ensures TopIds(a + b) == TopIds(a) + TopIds(b)
  {
    if a != [] {
      assert (a + b)[0] == a[0];
      assert (a + b)[1..] == a[1..] + b;
      TopIdsConcat(a[1..], b);
    } else {
      assert a + b == b;
    }
  }

  lemma IdsSingleton(t: Tree)
    ensures Ids([t]) == TreeIds(t)
  {
    assert [t][1..] == [];
  }

  lemma {:induction false} TopIdsAreIds(ts: Forest)
    ensures forall x :: x in TopIds(ts) ==> x in Ids(ts)
  {
    if ts != [] {
      TopIdsAreIds(ts[1..]);
    }
  }

  /** The three parts of a forest with unique ids have unique ids and share none. */
  lemma UniqueSplit(ts: Forest)
    requires ts != [] && Unique(ts)
    ensures Unique(ts[0].children) && Unique(ts[1..])
    ensures ts[0].id !in Ids(ts[0].children) && ts[0].id !in Ids(ts[1..])
    ensures forall x :: x in Ids(ts[0].children) ==> x !in Ids(ts[1..])
  {
    var t := ts[0];
    var m0 := multiset(Ids(t.children));
    var m1 := multiset(Ids(ts[1..]));
    assert Ids(ts) == [t.id] + Ids(t.children) + Ids(ts[1..]);
    assert multiset(Ids(ts)) == multiset{t.id} + m0 + m1;
    forall x
      ensures m0[x] <= 1 && m1[x] <= 1
    {
      assert multiset(Ids(ts))[x] <= 1;
    }
    assert m0[t.id] == 0 && m1[t.id] == 0 by {
      assert multiset(Ids(ts))[t.id] <= 1;
    }
    forall x | x in Ids(t.children)
      ensures x !in Ids(ts[1..])
    {
      assert m0[x] >= 1;
      assert multiset(Ids(ts))[x] <= 1;
    }
  }

  /** In a forest with unique ids, a node of one of its trees is found in that tree. */
  lemma {:induction false} FindInMember(ts: Forest, i: nat, x: NodeId)
    requires Unique(ts) && i < |ts| && x in TreeIds(ts[i])
    ensures Find(ts, x) == Find([ts[i]], x)
  {
    IdsSingleton(ts[i]);
    if i > 0 {
      assert ts[1..][i - 1] == ts[i];
      assert x in Ids(ts[1..]) by {
        FindInIds(ts[1..], i - 1, x);
      }
      assert x != ts[0].id && x !in Ids(ts[0].children) by {
        UniqueSplit(ts);
      }
      assert Find(ts, x) == Find(ts[1..], x);
      assert Unique(ts[1..]) by {
        UniqueSplit(ts);
      }
      FindInMember(ts[1..], i - 1, x);
    } else {
      assert x == ts[0].id || x in Ids(ts[0].children);
    }
  }

  lemma {:induction false} FindInIds(ts: Forest, i: nat, x: NodeId)
    requires i < |ts| && x in TreeIds(ts[i])
    ensures x in Ids(ts)
  {
    if i > 0 {
      assert ts[1..][i - 1] == ts[i];
      FindInIds(ts[1..], i - 1, x);
    }
  }

  /** Every node of an all-frozen forest is frozen. */
  lemma {:induction false} AllFrozenFind(ts: Forest, x: NodeId)
    requires AllFrozen(ts) && x in Ids(ts)
    ensures IsFrozen(ts, x)
  {
    if ts[0].id != x {
      if x in Ids(ts[0].children) {
        AllFrozenFind(ts[0].children, x);
      } else {
        AllFrozenFind(ts[1..], x);
      }
    }
  }

  /** In a forest with unique ids, every node of a sealed tree of it is frozen. */
  lemma SealedNodesAreFrozen(ts: Forest, i: nat, x: NodeId)
    requires Unique(ts) && i < |ts| && Sealed(ts[i]) && x in TreeIds(ts[i])
    ensures IsFrozen(ts, x)
  {
    FindInMember(ts, i, x);
    IdsSingleton(ts[i]);
    assert [ts[i]][1..] == [];
    assert AllFrozen([ts[i]]);
    AllFrozenFind([ts[i]], x);
  }

  // ---------------------------------------------------------------------------------
  // Remove

  lemma {:induction false} RemoveAbsent(ts: Forest, n: NodeId)
    requires n !in Ids(ts)
    ensures Remove(ts, n) == ts
  {
    if ts != [] {
      RemoveAbsent(ts[0].children, n);
      RemoveAbsent(ts[1..], n);
    }
  }

  /** The subtree Find returns holds ids of the forest only. */
  lemma {:induction false} FindWithin(ts: Forest, id: NodeId)
    requires id in Ids(ts)
    ensures multiset(TreeIds(Find(ts, id).value)) <= multiset(Ids(ts))
  {
    assert Ids(ts) == TreeIds(ts[0]) + Ids(ts[1..]);
    if ts[0].id != id {
      if id in Ids(ts[0].children) {
        FindWithin(ts[0].children, id);
      } else {
        FindWithin(ts[1..], id);
      }
    }
  }

  /** Removing `n` takes out exactly the ids of the subtree rooted at `n`. */
  lemma {:induction false} RemoveIds(ts: Forest, n: NodeId)
    requires Unique(ts)
    ensures multiset(Ids(Remove(ts, n))) == multiset(Ids(ts)) - multiset(Below(ts, n))
    ensures n !in Ids(Remove(ts, n))
  {
    if ts == [] {
      return;
    }
    var t := ts[0];
    var mc, mr := multiset(Ids(t.children)), multiset(Ids(ts[1..]));
    var m := multiset(Ids(ts));
    var mb := multiset(Below(ts, n));
    var ids := Ids(Remove(ts, n));
    assert m == multiset{t.id} + mc + mr by {
      assert Ids(ts) == [t.id] + Ids(t.children) + Ids(ts[1..]);
    }
    assert Unique(t.children) && Unique(ts[1..]) && t.id !in Ids(t.children) && t.id !in Ids(ts[1..])
      && (n in Ids(t.children) ==> n !in Ids(ts[1..])) by {
      UniqueSplit(ts);
    }
    if t.id == n {
      assert ids == Ids(ts[1..]) by {
        RemoveAbsent(ts[1..], n);
      }
      assert mb == multiset{t.id} + mc by {
        assert Below(ts, n) == [t.id] + Ids(t.children);
      }
      MultisetShift(multiset{t.id}, mc, mr, mb);
    } else {
      var rc, rr := Remove(t.children, n), Remove(ts[1..], n);
      assert ids == [t.id] + Ids(rc) + Ids(rr) by {
        IdsCons(Prune(t, n), rr);
      }
      if n in Ids(t.children) {
        assert multiset(Ids(rc)) == mc - mb && mb <= mc && n !in Ids(rc) by {
          RemoveIds(t.children, n);
          FindWithin(t.children, n);
          assert mb == multiset(Below(t.children, n));
        }
        assert rr == ts[1..] by {
          RemoveAbsent(ts[1..], n);
        }
        MultisetShift(multiset{t.id}, mc, mr, mb);
      } else if n in Ids(ts[1..]) {
        assert multiset(Ids(rr)) == mr - mb && mb <= mr && n !in Ids(rr) by {
          RemoveIds(ts[1..], n);
          FindWithin(ts[1..], n);
          assert mb == multiset(Below(ts[1..], n));
        }
        assert rc == t.children by {
          RemoveAbsent(t.children, n);
        }
        MultisetShift(multiset{t.id}, mr, mc, mb);
      } else {
        assert rc == t.children && rr == ts[1..] by {
          RemoveAbsent(t.children, n);
          RemoveAbsent(ts[1..], n);
        }
        assert Below(ts, n) == [];
        assert multiset(ids) == m;
      }
    }
  }

  /** Multiset arithmetic for the steps of RemoveIds. */
  lemma MultisetShift(x: multiset<NodeId>, y: multiset<NodeId>, z: multiset<NodeId>, c: multiset<NodeId>)
    ensures c <= y ==> x + (y - c) + z == (x + y + z) - c
    ensures c <= y ==> x + z + (y - c) == (x + z + y) - c
    ensures c == x + y ==> z == (x + y + z) - c
  {
  }

  lemma IdsCons(t: Tree, rest: Forest)
    ensures Ids([t] + rest) == TreeIds(t) + Ids(rest)
  {
    assert ([t] + rest)[0] == t && ([t] + rest)[1..] == rest;
  }

  /** After removing `n`, the ids left are those outside the subtree of `n`. */
  lemma RemoveMembers(ts: Forest, n: NodeId)
    requires Unique(ts)
    ensures forall w :: w in Ids(Remove(ts, n)) <==> w in Ids(ts) && w !in Below(ts, n)
  {
    var m, mb, mr := multiset(Ids(ts)), multiset(Below(ts, n)), multiset(Ids(Remove(ts, n)));
    RemoveIds(ts, n);
    if n in Ids(ts) {
      FindWithin(ts, n);
    }
    assert mb <= m && mr == m - mb;
    forall w ensures w in Ids(Remove(ts, n)) <==> w in Ids(ts) && w !in Below(ts, n) {
      CountOne(m, mb, mr, w);
    }
  }

  /** Counting one id through `mr == m - mb` with `mb <= m` and `m` holding it at most once. */
  lemma CountOne(m: multiset<NodeId>, mb: multiset<NodeId>, mr: multiset<NodeId>, w: NodeId)
    requires mb <= m && mr == m - mb && m[w] <= 1
    ensures w in mr <==> w in m && w !in mb
  {
    assert mr[w] == m[w] - mb[w];
  }

  /** A node outside the removed subtree is still there, with its own subtree pruned. */
  lemma {:induction false} FindAfterRemove(ts: Forest, n: NodeId, w: NodeId)
    requires Unique(ts) && w in Ids(ts) && w !in Below(ts, n)
    ensures Find(Remove(ts, n), w) == Some(Prune(Find(ts, w).value, n))
  {
    var t := ts[0];
    assert Unique(t.children) && Unique(ts[1..]) && t.id !in Ids(t.children) && t.id !in Ids(ts[1..])
      && (w in Ids(t.children) ==> w !in Ids(ts[1..]))
      && (n in Ids(t.children) ==> n !in Ids(ts[1..])) by {
      UniqueSplit(ts);
    }
    if t.id == n {
      assert Remove(ts, n) == Remove(ts[1..], n);
      assert w !in TreeIds(t);
      assert Below(ts[1..], n) == [];
      FindAfterRemove(ts[1..], n, w);
    } else {
      var r := Remove(ts, n);
      assert r[0] == Prune(t, n) && r[1..] == Remove(ts[1..], n);
      if t.id == w {
      } else if w in Ids(t.children) {
        if n in Ids(t.children) {
          assert Below(t.children, n) == Below(ts, n);
        } else {
          RemoveAbsent(t.children, n);
        }
        RemoveMembers(t.children, n);
        FindAfterRemove(t.children, n, w);
      } else {
        assert w in Ids(ts[1..]);
        RemoveMembers(t.children, n);
        if n in Ids(ts[1..]) {
          assert Below(ts[1..], n) == Below(ts, n);
        } else {
          RemoveAbsent(ts[1..], n);
        }
        FindAfterRemove(ts[1..], n, w);
      }
    }
  }

  lemma {:induction false} TopIdsRemove(cs: Forest, n: NodeId)
    ensures TopIds(Remove(cs, n)) == Without(TopIds(cs), n)
  {
    if cs != [] {
      TopIdsRemove(cs[1..], n);
    }
  }

  /** Removal leaves the children of a node outside the removed subtree, minus `n`. */
  lemma KidsAfterRemove(ts: Forest, n: NodeId, q: NodeId)
    requires Unique(ts) && q in Ids(ts) && q !in Below(ts, n)
    ensures Kids(Remove(ts, n), q) == Without(Kids(ts, q), n)
  {
    FindAfterRemove(ts, n, q);
    TopIdsRemove(Find(ts, q).value.children, n);
  }

  /** A tree without `n` survives the removal of `n` untouched. */
  lemma {:induction false} RemoveKeeps(ts: Forest, n: NodeId, i: nat)
    requires i < |ts| && n !in TreeIds(ts[i])
    ensures ts[i] in Remove(ts, n)
  {
    if i == 0 {
      RemoveAbsent(ts[0].children, n);
      assert Prune(ts[0], n) == ts[0];
    } else {
      assert ts[1..][i - 1] == ts[i];
      RemoveKeeps(ts[1..], n, i - 1);
    }
  }

  // ---------------------------------------------------------------------------------
  // Place

  lemma {:induction false} PlaceAbsent(ts: Forest, a: Anchor, sub: Tree)
    requires AnchorId(a) !in Ids(ts)
    ensures Place(ts, a, sub) == ts
  {
    if ts != [] {
      PlaceAbsent(ts[0].children, a, sub);
      PlaceAbsent(ts[1..], a, sub);
      assert Graft(ts[0], a, sub) == ts[0];
    }
  }

  /** The ids `Beside` lays out: the node's, and the placed subtree's when it is put beside. */
  lemma BesideIds(g: Tree, a: Anchor, sub: Tree)
    ensures multiset(Ids(Beside(g, a, sub))) ==
              multiset(TreeIds(g)) + (if a == LeftOf(g.id) || a == RightOf(g.id) then multiset(TreeIds(sub)) else multiset{})
  {
    IdsSingleton(g);
    IdsSingleton(sub);
    if a == LeftOf(g.id) {
      IdsCons(sub, [g]);
    } else if a == RightOf(g.id) {
      IdsCons(g, [sub]);
    }
  }

  /** Placing at an anchor that is present adds exactly the ids of the placed subtree. */
  lemma {:induction false} PlaceIds(ts: Forest, a: Anchor, sub: Tree)
    requires Unique(ts) && AnchorId(a) in Ids(ts)
    ensures multiset(Ids(Place(ts, a, sub))) == multiset(Ids(ts)) + multiset(TreeIds(sub))
  {
    var t := ts[0];
    var ms := multiset(TreeIds(sub));
    var mc, mr := multiset(Ids(t.children)), multiset(Ids(ts[1..]));
    var pc, pr := Place(t.children, a, sub), Place(ts[1..], a, sub);
    var here := if AnchorId(a) == t.id then ms else multiset{};
    assert multiset(Ids(Place(ts, a, sub))) == multiset{t.id} + multiset(Ids(pc)) + here + multiset(Ids(pr)) by {
      IdsConcat(Beside(Graft(t, a, sub), a, sub), pr);
      GraftIds(t, a, sub);
    }
    assert multiset(Ids(ts)) == multiset{t.id} + mc + mr by {
      assert Ids(ts) == [t.id] + Ids(t.children) + Ids(ts[1..]);
    }
    assert multiset(Ids(pc)) + here + multiset(Ids(pr)) == mc + ms + mr by {
      UniqueSplit(ts);
      if AnchorId(a) == t.id {
        PlaceAbsent(t.children, a, sub);
        PlaceAbsent(ts[1..], a, sub);
      } else if AnchorId(a) in Ids(t.children) {
        PlaceIds(t.children, a, sub);
        PlaceAbsent(ts[1..], a, sub);
      } else {
        PlaceAbsent(t.children, a, sub);
        PlaceIds(ts[1..], a, sub);
      }
      PlaceBranchSum(mc, mr, ms, multiset(Ids(pc)), multiset(Ids(pr)), here);
    }
    PlaceSum(multiset(Ids(Place(ts, a, sub))), multiset{t.id}, multiset(Ids(pc)), here, multiset(Ids(pr)), mc, mr, ms);
  }

  /** Multiset arithmetic for the last step of PlaceIds. */
  lemma PlaceSum(whole: multiset<NodeId>, i: multiset<NodeId>, p: multiset<NodeId>, h: multiset<NodeId>,
                 r: multiset<NodeId>, c: multiset<NodeId>, rr: multiset<NodeId>, s: multiset<NodeId>)
    requires whole == i + p + h + r
    requires p + h + r == c + s + rr
    ensures whole == (i + c + rr) + s
  {
    assert forall x :: whole[x] == i[x] + (p + h + r)[x];
    assert forall x :: whole[x] == ((i + c + rr) + s)[x];
  }

  /** Multiset arithmetic for the three places the anchor of PlaceIds can be. */
  lemma PlaceBranchSum(mc: multiset<NodeId>, mr: multiset<NodeId>, ms: multiset<NodeId>,
                       pc: multiset<NodeId>, pr: multiset<NodeId>, here: multiset<NodeId>)
    requires (pc == mc && pr == mr && here == ms) || (pc == mc + ms && pr == mr && here == multiset{}) ||
             (pc == mc && pr == mr + ms && here == multiset{})
    ensures pc + here + pr == mc + ms + mr
  {
  }

  /** The ids one tree contributes under Place, before the rest of its siblings. */
  lemma GraftIds(t: Tree, a: Anchor, sub: Tree)
    ensures multiset(Ids(Beside(Graft(t, a, sub), a, sub))) ==
              multiset{t.id} + multiset(Ids(Place(t.children, a, sub)))
              + (if AnchorId(a) == t.id then multiset(TreeIds(sub)) else multiset{})
  {
    var g := Graft(t, a, sub);
    GraftTreeIds(t, a, sub);
    BesideIds(g, a, sub);
    assert g.id == t.id;
    match a
    case LastChildOf(p) =>
    case LeftOf(x) =>
    case RightOf(x) =>
  }

  /** The ids of the grafted node itself: its own, its placed children's, and the
      subtree's when it is the anchor's parent. */
  lemma GraftTreeIds(t: Tree, a: Anchor, sub: Tree)
    ensures multiset(TreeIds(Graft(t, a, sub))) ==
              multiset{t.id} + multiset(Ids(Place(t.children, a, sub)))
              + (if a == LastChildOf(t.id) then multiset(TreeIds(sub)) else multiset{})
  {
    var pc := Place(t.children, a, sub);
    var extra: Forest := if a == LastChildOf(t.id) then [sub] else [];
    IdsConcat(pc, extra);
    IdsSingleton(sub);
    assert TreeIds(Graft(t, a, sub)) == [t.id] + (Ids(pc) + Ids(extra));
  }

  lemma {:induction false} FindConcat(x: Forest, y: Forest, w: NodeId)
    ensures Find(x + y, w) == if w in Ids(x) then Find(x, w) else Find(y, w)
  {
    IdsConcat(x, y);
    if x == [] {
      assert x + y == y;
    } else {
      assert (x + y)[0] == x[0] && (x + y)[1..] == x[1..] + y;
      FindConcat(x[1..], y, w);
    }
  }

  /** Placement keeps every id and brings in only the placed subtree's. */
  lemma PlaceMembers(ts: Forest, a: Anchor, sub: Tree)
    requires Unique(ts)
    ensures forall w :: w in Ids(ts) ==> w in Ids(Place(ts, a, sub))
    ensures forall w :: w in Ids(Place(ts, a, sub)) ==> w in Ids(ts) || w in TreeIds(sub)
  {
    if AnchorId(a) in Ids(ts) {
      var m, mp, ms := multiset(Ids(ts)), multiset(Ids(Place(ts, a, sub))), multiset(TreeIds(sub));
      assert mp == m + ms by {
        PlaceIds(ts, a, sub);
      }
      forall w | w in Ids(ts) ensures w in Ids(Place(ts, a, sub)) {
        assert m[w] > 0;
        assert mp[w] > 0;
      }
      forall w | w in Ids(Place(ts, a, sub)) ensures w in Ids(ts) || w in TreeIds(sub) {
        assert mp[w] > 0;
      }
    } else {
      PlaceAbsent(ts, a, sub);
    }
  }

  /** Looking past the placed subtree, `Beside` shows only the node itself. */
  lemma FindBeside(g: Tree, a: Anchor, sub: Tree, w: NodeId)
    requires w !in TreeIds(sub)
    ensures Find(Beside(g, a, sub), w) == Find([g], w)
    ensures w in Ids(Beside(g, a, sub)) <==> w in TreeIds(g)
  {
    IdsSingleton(g);
    if a == LeftOf(g.id) {
      FindConcat([sub], [g], w);
      IdsConcat([sub], [g]);
      IdsSingleton(sub);
      assert [sub] + [g] == Beside(g, a, sub);
    } else if a == RightOf(g.id) {
      FindConcat([g], [sub], w);
      IdsConcat([g], [sub]);
      IdsSingleton(sub);
      assert [g] + [sub] == Beside(g, a, sub);
    }
  }

  /** A node that was there before is found after a placement, grafted. */
  lemma {:induction false} FindAfterPlace(ts: Forest, a: Anchor, sub: Tree, w: NodeId)
    requires Unique(ts) && w in Ids(ts) && w !in TreeIds(sub)
    ensures Find(Place(ts, a, sub), w) == Some(Graft(Find(ts, w).value, a, sub))
  {
    var t := ts[0];
    var g := Graft(t, a, sub);
    var b := Beside(g, a, sub);
    var pc, pr := Place(t.children, a, sub), Place(ts[1..], a, sub);
    var extra: Forest := if a == LastChildOf(t.id) then [sub] else [];
    assert Place(ts, a, sub) == b + pr;
    FindConcat(b, pr, w);
    FindBeside(g, a, sub, w);
    IdsSingleton(sub);
    IdsConcat(pc, extra);
    assert g.children == pc + extra;
    if w == t.id {
    } else if w in Ids(t.children) {
      assert Unique(t.children) by {
        UniqueSplit(ts);
      }
      PlaceMembers(t.children, a, sub);
      FindConcat(pc, extra, w);
      FindAfterPlace(t.children, a, sub, w);
    } else {
      assert w !in TreeIds(t) && Unique(ts[1..]) && Unique(t.children) by {
        UniqueSplit(ts);
      }
      PlaceMembers(t.children, a, sub);
      FindAfterPlace(ts[1..], a, sub, w);
    }
  }

  lemma {:induction false} TopIdsPlace(cs: Forest, a: Anchor, sub: Tree)
    ensures TopIds(Place(cs, a, sub)) == PlaceTop(TopIds(cs), a, sub.id)
  {
    if cs != [] {
      var g := Graft(cs[0], a, sub);
      TopIdsConcat(Beside(g, a, sub), Place(cs[1..], a, sub));
      TopIdsPlace(cs[1..], a, sub);
      if a == LeftOf(g.id) {
        assert TopIds([sub, g]) == [sub.id, g.id];
      } else if a == RightOf(g.id) {
        assert TopIds([g, sub]) == [g.id, sub.id];
      }
    }
  }

  /** After a placement, the children of the anchor's parent are the old ones with the
      placed id put at the anchor. */
  lemma KidsAfterPlace(ts: Forest, a: Anchor, sub: Tree, q: NodeId)
    requires Unique(ts) && q in Ids(ts) && q !in TreeIds(sub)
    ensures Kids(Place(ts, a, sub), q) ==
              PlaceTop(Kids(ts, q), a, sub.id) + (if a == LastChildOf(q) then [sub.id] else [])
  {
    FindAfterPlace(ts, a, sub, q);
    var t := Find(ts, q).value;
    var extra := if a == LastChildOf(q) then [sub] else [];
    TopIdsConcat(Place(t.children, a, sub), extra);
    TopIdsPlace(t.children, a, sub);
  }

  /** The placed subtree is found, whole, after the placement. */
  lemma {:induction false} FindPlaced(ts: Forest, a: Anchor, sub: Tree)
    requires Unique(ts) && AnchorId(a) in Ids(ts) && sub.id !in Ids(ts)
    ensures Find(Place(ts, a, sub), sub.id) == Some(sub)
  {
    var t := ts[0];
    var b := Beside(Graft(t, a, sub), a, sub);
    var pr := Place(ts[1..], a, sub);
    assert Place(ts, a, sub) == b + pr;
    FindConcat(b, pr, sub.id);
    assert Ids(ts) == [t.id] + Ids(t.children) + Ids(ts[1..]);
    if AnchorId(a) in TreeIds(t) {
      assert Unique(t.children) && (AnchorId(a) == t.id ==> AnchorId(a) !in Ids(t.children)) by {
        UniqueSplit(ts);
      }
      FindPlacedInTree(t, a, sub);
    } else {
      assert Unique(ts[1..]) by {
        UniqueSplit(ts);
      }
      PlaceAbsent([t], a, sub);
      IdsSingleton(t);
      assert b == [t];
      FindPlaced(ts[1..], a, sub);
    }
  }

  /** The step of FindPlaced for the tree holding the anchor. */
  lemma {:induction false} FindPlacedInTree(t: Tree, a: Anchor, sub: Tree)
    requires Unique(t.children) && AnchorId(a) in TreeIds(t) && sub.id !in TreeIds(t)
    requires AnchorId(a) == t.id ==> AnchorId(a) !in Ids(t.children)
    ensures sub.id in Ids(Beside(Graft(t, a, sub), a, sub))
    ensures Find(Beside(Graft(t, a, sub), a, sub), sub.id) == Some(sub)
  {
    var g := Graft(t, a, sub);
    var pc := Place(t.children, a, sub);
    IdsSingleton(sub);
    IdsSingleton(g);
    if AnchorId(a) == t.id {
      PlaceAbsent(t.children, a, sub);
      if a == LastChildOf(t.id) {
        assert g.children == t.children + [sub];
        FindConcat(t.children, [sub], sub.id);
        IdsConcat(t.children, [sub]);
      } else if a == RightOf(t.id) {
        assert g == t;
        assert Beside(g, a, sub) == [g] + [sub];
        FindConcat([g], [sub], sub.id);
        IdsConcat([g], [sub]);
      }
    } else {
      assert g.children == pc + [];
      PlaceMembers(t.children, a, sub);
      FindPlaced(t.children, a, sub);
      IdsConcat(pc, []);
      FindConcat(pc, [], sub.id);
    }
  }

  /** A tree without the anchor survives a placement untouched. */
  lemma {:induction false} PlaceKeeps(ts: Forest, a: Anchor, sub: Tree, i: nat)
    requires i < |ts| && AnchorId(a) !in TreeIds(ts[i])
    ensures ts[i] in Place(ts, a, sub)
  {
    if i == 0 {
      PlaceAbsent(ts[0].children, a, sub);
      assert Graft(ts[0], a, sub) == ts[0];
      assert Beside(ts[0], a, sub) == [ts[0]];
    } else {
      assert ts[1..][i - 1] == ts[i];
      PlaceKeeps(ts[1..], a, sub, i - 1);
    }
  }

  // ---------------------------------------------------------------------------------
  // SetContent and MarkFrozen keep the structure

  lemma {:induction false} SetContentAbsent(ts: Forest, n: NodeId, c: Content)
    requires n !in Ids(ts)
    ensures SetContent(ts, n, c) == ts
  {
    if ts != [] {
      SetContentAbsent(ts[0].children, n, c);
      SetContentAbsent(ts[1..], n, c);
    }
  }

  lemma {:induction false} SetContentIds(ts: Forest, n: NodeId, c: Content)
    ensures Ids(SetContent(ts, n, c)) == Ids(ts)
    ensures TopIds(SetContent(ts, n, c)) == TopIds(ts)
  {
    if ts != [] {
      SetContentIds(ts[0].children, n, c);
      SetContentIds(ts[1..], n, c);
    }
  }

  lemma {:induction false} SetContentKeeps(ts: Forest, n: NodeId, c: Content, i: nat)
    requires i < |ts| && n !in TreeIds(ts[i])
    ensures ts[i] in SetContent(ts, n, c)
  {
    if i == 0 {
      SetContentAbsent(ts[0].children, n, c);
    } else {
      assert ts[1..][i - 1] == ts[i];
      SetContentKeeps(ts[1..], n, c, i - 1);
    }
  }

  /** After SetContent, node `n` holds the new content, every other node keeps its own, and
      every node keeps its frozen flag and its children. */
  lemma {:induction false} FindAfterSetContent(ts: Forest, n: NodeId, c: Content, w: NodeId)
    requires w in Ids(ts)
    ensures Find(SetContent(ts, n, c), w).Some?
    ensures Find(SetContent(ts, n, c), w).value.content == if w == n then c else Find(ts, w).value.content
    ensures Find(SetContent(ts, n, c), w).value.frozen == Find(ts, w).value.frozen
    ensures TopIds(Find(SetContent(ts, n, c), w).value.children) == TopIds(Find(ts, w).value.children)
  {
    var t := ts[0];
    SetContentIds(t.children, n, c);
    SetContentIds(ts[1..], n, c);
    if t.id == w {
    } else if w in Ids(t.children) {
      FindAfterSetContent(t.children, n, c, w);
    } else {
      FindAfterSetContent(ts[1..], n, c, w);
    }
  }

  /** After an edit, the subtree at `w` is the old subtree with the same edit applied. */
  lemma {:induction false} FindSetContent(ts: Forest, n: NodeId, c: Content, w: NodeId)
    requires w in Ids(ts)
    ensures Find(SetContent(ts, n, c), w) == Some(SetContent([Find(ts, w).value], n, c)[0])
  {
    var t, e := ts[0], SetContent(ts, n, c);
    SetContentIds(t.children, n, c);
    assert e[0].children == SetContent(t.children, n, c) && e[1..] == SetContent(ts[1..], n, c);
    if t.id == w {
    } else if w in Ids(t.children) {
      FindSetContent(t.children, n, c, w);
    } else {
      FindSetContent(ts[1..], n, c, w);
    }
  }

  lemma {:induction false} MarkFrozenIds(ts: Forest, s: set<NodeId>)
    ensures Ids(MarkFrozen(ts, s)) == Ids(ts)
    ensures TopIds(MarkFrozen(ts, s)) == TopIds(ts)
  {
    if ts != [] {
      MarkFrozenIds(ts[0].children, s);
      MarkFrozenIds(ts[1..], s);
    }
  }

  /** Marking in two rounds is marking the union once. */
  lemma {:induction false} MarkFrozenTwice(ts: Forest, s: set<NodeId>, u: set<NodeId>)
    ensures MarkFrozen(MarkFrozen(ts, s), u) == MarkFrozen(ts, s + u)
  {
    if ts != [] {
      MarkFrozenTwice(ts[0].children, s, u);
      MarkFrozenTwice(ts[1..], s, u);
    }
  }

  lemma {:induction false} MarkFrozenNothing(ts: Forest)
    ensures MarkFrozen(ts, {}) == ts
  {
    if ts != [] {
      MarkFrozenNothing(ts[0].children);
      MarkFrozenNothing(ts[1..]);
    }
  }

  /** Marking every id of a forest freezes all of it. */
  lemma {:induction false} MarkFrozenCovers(ts: Forest, s: set<NodeId>)
    requires forall x :: x in Ids(ts) ==> x in s
    ensures AllFrozen(MarkFrozen(ts, s))
  {
    if ts != [] {
      assert Ids(ts) == [ts[0].id] + Ids(ts[0].children) + Ids(ts[1..]);
      MarkFrozenCovers(ts[0].children, s);
      MarkFrozenCovers(ts[1..], s);
      var r := MarkFrozen(ts, s);
      assert r[0].frozen && r[0].children == MarkFrozen(ts[0].children, s);
      assert r[1..] == MarkFrozen(ts[1..], s);
    }
  }

  /** Marking leaves an all-frozen forest as it was. */
  lemma {:induction false} MarkFrozenOfFrozen(ts: Forest, s: set<NodeId>)
    requires AllFrozen(ts)
    ensures MarkFrozen(ts, s) == ts
  {
    if ts != [] {
      MarkFrozenOfFrozen(ts[0].children, s);
      MarkFrozenOfFrozen(ts[1..], s);
    }
  }

  lemma {:induction false} MarkFrozenKeeps(ts: Forest, s: set<NodeId>, i: nat)
    requires i < |ts| && Sealed(ts[i])
    ensures ts[i] in MarkFrozen(ts, s)
  {
    if i == 0 {
      MarkFrozenOfFrozen(ts[0].children, s);
    } else {
      assert ts[1..][i - 1] == ts[i];
      MarkFrozenKeeps(ts[1..], s, i - 1);
    }
  }

  /** After marking, the subtree at `w` is the old one with the same ids marked. */
  lemma {:induction false} FindAfterMarkFrozen(ts: Forest, s: set<NodeId>, w: NodeId)
    requires w in Ids(ts)
    ensures Find(MarkFrozen(ts, s), w).Some?
    ensures [Find(MarkFrozen(ts, s), w).value] == MarkFrozen([Find(ts, w).value], s)
  {
    var t := ts[0];
    MarkFrozenIds(t.children, s);
    MarkFrozenIds(ts[1..], s);
    if t.id == w {
      assert [t][1..] == [];
    } else if w in Ids(t.children) {
      FindAfterMarkFrozen(t.children, s, w);
    } else {
      FindAfterMarkFrozen(ts[1..], s, w);
    }
  }
  // ---------------------------------------------------------------------------------
  // Nesting: subtrees, parents and children

  /** A found subtree holds no id twice. */
  lemma FindUnique(ts: Forest, q: NodeId)
    requires Unique(ts) && q in Ids(ts)
    ensures Unique([Find(ts, q).value])
  {
    var t := Find(ts, q).value;
    FindWithin(ts, q);
    IdsSingleton(t);
    forall x ensures multiset(Ids([t]))[x] <= 1 {
      assert multiset(Ids(ts))[x] <= 1;
    }
  }

  /** Inside a forest with unique ids, looking a node up in the whole forest or in the
      subtree of one of its ancestors gives the same subtree. */
  lemma {:induction false} FindNested(ts: Forest, q: NodeId, x: NodeId)
    requires Unique(ts) && q in Ids(ts) && x in TreeIds(Find(ts, q).value)
    ensures Find(ts, x) == Find([Find(ts, q).value], x)
  {
    var t := ts[0];
    assert Unique(t.children) && Unique(ts[1..]) && t.id !in Ids(t.children) && t.id !in Ids(ts[1..])
      && (forall y :: y in Ids(t.children) ==> y !in Ids(ts[1..])) by {
      UniqueSplit(ts);
    }
    if t.id == q {
      assert [t][1..] == [];
    } else if q in Ids(t.children) {
      FindWithin(t.children, q);
      var u := Find(t.children, q).value;
      assert x in Ids(t.children) && x != t.id by {
        assert multiset(TreeIds(u))[x] > 0;
      }
      FindNested(t.children, q, x);
    } else {
      FindWithin(ts[1..], q);
      var u := Find(ts[1..], q).value;
      assert x in Ids(ts[1..]) && x !in TreeIds(t) by {
        assert multiset(TreeIds(u))[x] > 0;
      }
      FindNested(ts[1..], q, x);
    }
  }

  /** Below(ts, n) is closed under taking subtrees: the subtree of any node in it lies in it. */
  lemma SubtreeClosed(ts: Forest, n: NodeId, q: NodeId)
    requires Unique(ts) && n in Ids(ts) && q in Below(ts, n)
    ensures q in Ids(ts)
    ensures forall y :: y in Below(ts, q) ==> y in Below(ts, n)
  {
    var t := Find(ts, n).value;
    FindWithin(ts, n);
    assert q in Ids(ts) by {
      assert multiset(TreeIds(t))[q] > 0;
    }
    FindNested(ts, n, q);
    IdsSingleton(t);
    FindWithin([t], q);
    forall y | y in Below(ts, q) ensures y in Below(ts, n) {
      assert multiset(TreeIds(Find([t], q).value))[y] > 0;
    }
  }

  /** A top-level tree's root is among the top-level ids. */
  lemma {:induction false} MemberTop(ts: Forest, t: Tree)
    requires t in ts
    ensures t.id in TopIds(ts)
  {
    if ts[0] != t {
      assert t in ts[1..];
      MemberTop(ts[1..], t);
    }
  }

  /** With unique ids, the subtree found at a top-level id is that top-level tree. */
  lemma {:induction false} TopFind(ts: Forest, x: NodeId)
    requires Unique(ts) && x in TopIds(ts)
    ensures x in Ids(ts) && Find(ts, x).value in ts
  {
    TopIdsAreIds(ts);
    if ts[0].id != x {
      TopIdsAreIds(ts[1..]);
      assert Unique(ts[1..]) && x !in Ids(ts[0].children) by {
        UniqueSplit(ts);
      }
      TopFind(ts[1..], x);
      assert Find(ts[1..], x).value in ts[1..];
    }
  }

  /** No node is its own child. */
  lemma NotOwnChild(ts: Forest, q: NodeId)
    requires Unique(ts) && q in Ids(ts)
    ensures q !in Kids(ts, q)
  {
    var t := Find(ts, q).value;
    TopIdsAreIds(t.children);
    FindUnique(ts, q);
    assert q !in Ids(t.children) by {
      UniqueSplit([t]);
    }
  }

  /** A subtree that holds a node holds that node's children. */
  lemma KidBelow(ts: Forest, n: NodeId, q: NodeId, x: NodeId)
    requires Unique(ts) && n in Ids(ts) && q in Ids(ts) && x in Kids(ts, q)
    ensures q in Below(ts, n) ==> x in Below(ts, n)
  {
    if q in Below(ts, n) {
      SubtreeClosed(ts, n, q);
      ChildNotAbove(ts, q, x);
    }
  }

  /** In a forest with unique ids, a node is not in the subtree of any of its children. */
  lemma ChildNotAbove(ts: Forest, q: NodeId, x: NodeId)
    requires Unique(ts) && q in Ids(ts) && x in Kids(ts, q)
    ensures x in Below(ts, q) && x in Ids(ts)
    ensures q !in Below(ts, x)
  {
    var t := Find(ts, q).value;
    TopIdsAreIds(t.children);
    FindUnique(ts, q);
    assert Unique(t.children) && q !in Ids(t.children) by {
      UniqueSplit([t]);
    }
    FindNested(ts, q, x);
    SubtreeClosed(ts, q, x);
    assert Find([t], x) == Find(t.children, x);
    FindWithin(t.children, x);
    assert q !in TreeIds(Find(t.children, x).value) by {
      assert multiset(Ids(t.children))[q] == 0;
    }
  }

  /** get_parent: a root has none; any other node is among its parent's children. */
  lemma {:induction false} ParentInFacts(ts: Forest, x: NodeId, above: Option<NodeId>)
    requires Unique(ts) && x in Ids(ts)
    ensures x in TopIds(ts) ==> ParentIn(ts, x, above) == above
    ensures x !in TopIds(ts) ==>
              ParentIn(ts, x, above).Some? && ParentIn(ts, x, above).value in Ids(ts)
              && x in Kids(ts, ParentIn(ts, x, above).value)
  {
    var t := ts[0];
    assert Unique(t.children) && Unique(ts[1..]) && t.id !in Ids(t.children) && t.id !in Ids(ts[1..])
      && (forall y :: y in Ids(t.children) ==> y !in Ids(ts[1..])) by {
      UniqueSplit(ts);
    }
    TopIdsAreIds(ts[1..]);
    if t.id == x {
    } else if x in Ids(t.children) {
      ParentInFacts(t.children, x, Some(t.id));
      var r := ParentIn(t.children, x, Some(t.id));
      if x !in TopIds(t.children) {
        assert Find(ts, r.value) == Find(t.children, r.value);
      }
    } else {
      ParentInFacts(ts[1..], x, above);
      var r := ParentIn(ts[1..], x, above);
      if x !in TopIds(ts[1..]) {
        assert r.value !in TreeIds(t);
        assert Find(ts, r.value) == Find(ts[1..], r.value);
      }
    }
  }

  /** get_parent on the whole forest. */
  lemma ParentFacts(ts: Forest, x: NodeId)
    requires Unique(ts) && x in Ids(ts)
    ensures Parent(ts, x).None? <==> x in TopIds(ts)
    ensures Parent(ts, x).Some? ==> x in Kids(ts, Parent(ts, x).value)
  {
    ParentInFacts(ts, x, None);
  }

  /** A child's parent is the node whose children list holds it: a node has one parent. */
  lemma {:induction false} ParentInOfKid(ts: Forest, x: NodeId, above: Option<NodeId>, q: NodeId)
    requires Unique(ts) && q in Ids(ts) && x in Kids(ts, q)
    ensures ParentIn(ts, x, above) == Some(q)
  {
    var t := ts[0];
    assert Unique(t.children) && Unique(ts[1..]) && t.id !in Ids(t.children) && t.id !in Ids(ts[1..])
      && (forall y :: y in Ids(t.children) ==> y !in Ids(ts[1..])) by {
      UniqueSplit(ts);
    }
    if q == t.id {
      TopIdsAreIds(t.children);
      ParentInFacts(t.children, x, Some(t.id));
    } else if q in Ids(t.children) {
      ChildNotAbove(t.children, q, x);
      ParentInOfKid(t.children, x, Some(t.id), q);
    } else {
      ChildNotAbove(ts[1..], q, x);
      ParentInOfKid(ts[1..], x, above, q);
    }
  }

  /** Two different nodes never share a child. */
  lemma ParentOfKid(ts: Forest, q: NodeId, w: NodeId, x: NodeId)
    requires Unique(ts) && q in Ids(ts) && x in Kids(ts, q)
    ensures Parent(ts, x) == Some(q)
    ensures w != q ==> x !in Kids(ts, w)
  {
    ParentInOfKid(ts, x, None, q);
    if x in Kids(ts, w) {
      assert w in Ids(ts);
      ParentInOfKid(ts, x, None, w);
    }
  }

  /** A node strictly inside the subtree of y has its parent inside that subtree too. */
  lemma ParentBelow(ts: Forest, y: NodeId, x: NodeId)
    requires Unique(ts) && y in Ids(ts) && x in Below(ts, y) && x != y
    ensures Parent(ts, x).Some? && Parent(ts, x).value in Below(ts, y)
  {
    var t := Find(ts, y).value;
    FindUnique(ts, y);
    IdsSingleton(t);
    assert x !in TopIds([t]) by {
      assert TopIds([t]) == [y];
    }
    ParentInFacts([t], x, None);
    var p := ParentIn([t], x, None).value;
    FindNested(ts, y, p);
    ParentOfKid(ts, p, p, x);
  }

  /** Two different children of one node are not in each other's subtrees. */
  lemma SiblingNotBelow(ts: Forest, q: NodeId, x: NodeId, y: NodeId)
    requires Unique(ts) && q in Ids(ts) && x in Kids(ts, q) && y in Kids(ts, q) && x != y
    ensures x !in Below(ts, y)
  {
    ChildNotAbove(ts, q, y);
    if x in Below(ts, y) {
      ParentOfKid(ts, q, q, x);
      ParentBelow(ts, y, x);
      assert false;
    }
  }

  /** A top-level tree of a forest with unique ids is what Find returns for its root. */
  lemma FindMember(ts: Forest, t: Tree)
    requires Unique(ts) && t in ts
    ensures Find(ts, t.id) == Some(t)
  {
    var i :| 0 <= i < |ts| && ts[i] == t;
    FindInMember(ts, i, t.id);
    assert [t][0] == t;
  }

  /** Removal keeps ids unique. */
  lemma RemoveUnique(ts: Forest, n: NodeId)
    requires Unique(ts)
    ensures Unique(Remove(ts, n))
  {
    RemoveIds(ts, n);
    forall x ensures multiset(Ids(Remove(ts, n)))[x] <= 1 {
      assert multiset(Ids(ts))[x] <= 1;
    }
  }

  // ---------------------------------------------------------------------------------
  // Sibling lists

  /** Taking out an id that occurs once, at position j. */
  lemma {:induction false} WithoutAt(s: seq<NodeId>, x: NodeId, j: nat)
    requires j < |s| && s[j] == x && x !in s[..j] && x !in s[j + 1..]
    ensures Without(s, x) == s[..j] + s[j + 1..]
  {
    if j == 0 {
      WithoutAbsent(s[1..], x);
      assert s[1..] == s[j + 1..];
    } else {
      assert s[1..][..j - 1] == s[1..j] && s[1..][j - 1] == x && s[1..][j..] == s[j + 1..];
      WithoutAt(s[1..], x, j - 1);
      assert s[..j] == [s[0]] + s[1..j];
    }
  }

  lemma {:induction false} WithoutAbsent(s: seq<NodeId>, x: NodeId)
    requires x !in s
    ensures Without(s, x) == s
  {
    if s != [] {
      WithoutAbsent(s[1..], x);
    }
  }

  lemma {:induction false} PlaceTopAbsent(s: seq<NodeId>, a: Anchor, y: NodeId)
    requires AnchorId(a) !in s
    ensures PlaceTop(s, a, y) == s
  {
    if s != [] {
      PlaceTopAbsent(s[1..], a, y);
    }
  }

  /** PlaceTop inserts nothing for a last-child anchor: that one is appended by Graft. */
  lemma {:induction false} PlaceTopLast(s: seq<NodeId>, p: NodeId, y: NodeId)
    ensures PlaceTop(s, LastChildOf(p), y) == s
  {
    if s != [] {
      PlaceTopLast(s[1..], p, y);
    }
  }

  /** Placing beside an id that occurs once, at position i: just left or just right of it. */
  lemma {:induction false} PlaceTopAt(s: seq<NodeId>, a: Anchor, y: NodeId, i: nat)
    requires i < |s| && s[i] == AnchorId(a) && AnchorId(a) !in s[..i] && AnchorId(a) !in s[i + 1..]
    ensures a.LeftOf? ==> PlaceTop(s, a, y) == s[..i] + [y] + s[i..]
    ensures a.RightOf? ==> PlaceTop(s, a, y) == s[..i + 1] + [y] + s[i + 1..]
    ensures a.LastChildOf? ==> PlaceTop(s, a, y) == s
  {
    if i == 0 {
      PlaceTopAbsent(s[1..], a, y);
      assert s[1..] == s[i + 1..];
    } else {
      var t := s[1..];
      assert s[0] != AnchorId(a) by {
        assert s[0] == s[..i][0];
      }
      assert t[i - 1] == AnchorId(a) && AnchorId(a) !in t[..i - 1] && AnchorId(a) !in t[i..] by {
        assert t[..i - 1] == s[1..i] && t[i - 1] == s[i] && t[i..] == s[i + 1..];
      }
      PlaceTopAt(t, a, y, i - 1);
      var r := PlaceTop(t, a, y);
      assert PlaceTop(s, a, y) == [s[0]] + r;
      match a
      case LeftOf(x) =>
        ConsAround(s, i, y);
      case RightOf(x) =>
        ConsAround(s, i + 1, y);
      case LastChildOf(p) =>
        assert s == [s[0]] + t;
    }
  }

  /** Splitting a list at a later position than its head, with `y` put in between. */
  lemma ConsAround(s: seq<NodeId>, i: nat, y: NodeId)
    requires 0 < i <= |s|
    ensures s[..i] + [y] + s[i..] == [s[0]] + (s[1..][..i - 1] + [y] + s[1..][i - 1..])
  {
    assert s[..i] == [s[0]] + s[1..][..i - 1];
    assert s[i..] == s[1..][i - 1..];
  }

  /** No id occurs twice in a sibling list. */
  predicate NoDup(s: seq<NodeId>)
  {
    forall i, j :: 0 <= i < j < |s| ==> s[i] != s[j]
  }

  /** The position of the first occurrence of `x`. */
  function IndexOf(s: seq<NodeId>, x: NodeId): (i: nat)
    requires x in s
    ensures i < |s| && s[i] == x && x !in s[..i]
  {
    if s[0] == x then 0
    else
      var j := IndexOf(s[1..], x);
      assert s[..j + 1] == [s[0]] + s[1..][..j];
      j + 1
  }

  lemma NoDupAt(s: seq<NodeId>, i: nat)
    requires NoDup(s) && i < |s|
    ensures s[i] !in s[..i] && s[i] !in s[i + 1..]
  {
  }

  /** Without keeps every other id, in order and without repeats. */
  lemma WithoutMembers(s: seq<NodeId>, x: NodeId)
    ensures forall y :: y in Without(s, x) <==> y in s && y != x
    ensures NoDup(s) ==> NoDup(Without(s, x))
  {
    WithoutIn(s, x);
    if NoDup(s) {
      WithoutNoDup(s, x);
    }
  }

  lemma {:induction false} WithoutIn(s: seq<NodeId>, x: NodeId)
    ensures forall y :: y in Without(s, x) <==> y in s && y != x
  {
    if s != [] {
      WithoutIn(s[1..], x);
      assert s == [s[0]] + s[1..];
    }
  }

  lemma {:induction false} WithoutNoDup(s: seq<NodeId>, x: NodeId)
    requires NoDup(s)
    ensures NoDup(Without(s, x))
  {
    if s != [] {
      assert NoDup(s[1..]) by {
        forall i, j | 0 <= i < j < |s[1..]| ensures s[1..][i] != s[1..][j] {
          assert s[1..][i] == s[i + 1] && s[1..][j] == s[j + 1];
        }
      }
      WithoutNoDup(s[1..], x);
      var rest := Without(s[1..], x);
      assert s[0] !in rest by {
        NoDupAt(s, 0);
        WithoutIn(s[1..], x);
      }
      if s[0] != x {
        NoDupCons(s[0], rest);
      }
    }
  }

  lemma NoDupCons(h: NodeId, rest: seq<NodeId>)
    requires NoDup(rest) && h !in rest
    ensures NoDup([h] + rest)
  {
    var w := [h] + rest;
    forall i, j | 0 <= i < j < |w| ensures w[i] != w[j] {
      assert w[j] == rest[j - 1];
      if i > 0 {
        assert w[i] == rest[i - 1];
      }
    }
  }

  lemma {:induction false} TopIdsWithin(ts: Forest)
    ensures multiset(TopIds(ts)) <= multiset(Ids(ts))
  {
    if ts != [] {
      TopIdsWithin(ts[1..]);
      assert Ids(ts) == [ts[0].id] + Ids(ts[0].children) + Ids(ts[1..]);
    }
  }

  /** The children of a node of a forest with unique ids are distinct. */
  lemma KidsNoDup(ts: Forest, q: NodeId)
    requires Unique(ts) && q in Ids(ts)
    ensures NoDup(Kids(ts, q))
  {
    var t := Find(ts, q).value;
    var s := TopIds(t.children);
    assert forall x :: multiset(s)[x] <= 1 by {
      FindUnique(ts, q);
      assert Unique(t.children) by {
        UniqueSplit([t]);
      }
      TopIdsWithin(t.children);
      forall x ensures multiset(s)[x] <= 1 {
        assert multiset(Ids(t.children))[x] <= 1;
      }
    }
    CountsNoDup(s);
  }

  /** The roots of a forest with unique ids are distinct. */
  lemma TopNoDup(ts: Forest)
    requires Unique(ts)
    ensures NoDup(TopIds(ts))
  {
    TopIdsWithin(ts);
    forall x ensures multiset(TopIds(ts))[x] <= 1 {
      assert multiset(Ids(ts))[x] <= 1;
    }
    CountsNoDup(TopIds(ts));
  }

  /** A list in which each id counts at most once has no repeats. */
  lemma CountsNoDup(s: seq<NodeId>)
    requires forall x :: multiset(s)[x] <= 1
    ensures NoDup(s)
  {
    forall i, j | 0 <= i < j < |s| ensures s[i] != s[j] {
      assert s == s[..j] + [s[j]] + s[j + 1..];
      assert s[i] in s[..j] by {
        assert s[..j][i] == s[i];
      }
      assert multiset(s)[s[i]] >= 1 + (if s[j] == s[i] then 1 else 0);
    }
  }
}
