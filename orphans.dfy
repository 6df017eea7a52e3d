/** VersionTracker.objects.orphan(): the trackers no row refers to any more. A page's
    versioned widgy field and a row of a many-to-many through table are both modelled as a
    link from a row to a tracker; deleting the row deletes its links. */
module Orphans {
  type TrackerId = nat
  type RowId = nat

  /** A row referring to a tracker. */
  datatype Link = Link(row: RowId, tracker: TrackerId)

  /** The rows that refer to tracker `t`. */
  function Referrers(links: seq<Link>, t: TrackerId): (r: seq<RowId>)
    ensures forall x :: x in r <==> Link(x, t) in links
  {
    if links == [] then []
    else (if links[0].tracker == t then [links[0].row] else []) + Referrers(links[1..], t)
  }

  /** orphan(): the trackers, in their order, that no link refers to. */
  function Orphans(trackers: seq<TrackerId>, links: seq<Link>): (r: seq<TrackerId>)
    ensures forall t :: t in r <==> t in trackers && Referrers(links, t) == []
    ensures |r| <= |trackers|
  {
    if trackers == [] then []
    else (if Referrers(links, trackers[0]) == [] then [trackers[0]] else []) + Orphans(trackers[1..], links)
  }

  /** Deleting a row deletes the links it holds, and only those. */
  function DeleteRow(links: seq<Link>, row: RowId): (r: seq<Link>)
    ensures forall l :: l in r <==> l in links && l.row != row
  {
    if links == [] then []
    else (if links[0].row == row then [] else [links[0]]) + DeleteRow(links[1..], row)
  }

  /** Deleting rows one after the other. */
  function DeleteRows(links: seq<Link>, rows: seq<RowId>): (r: seq<Link>)
    ensures forall l :: l in r <==> l in links && l.row !in rows
    decreases rows
  {
    if rows == [] then links else DeleteRows(DeleteRow(links, rows[0]), rows[1..])
  }

  /** After some rows are deleted, a tracker is an orphan exactly when every row that
      referred to it is among them. */
  lemma OrphanWhenReferrersGone(trackers: seq<TrackerId>, links: seq<Link>, rows: seq<RowId>, t: TrackerId)
    ensures t in Orphans(trackers, DeleteRows(links, rows)) <==>
              t in trackers && forall x :: x in Referrers(links, t) ==> x in rows
  {
    var left := DeleteRows(links, rows);
    if Referrers(left, t) != [] {
      var x := Referrers(left, t)[0];
      assert Link(x, t) in left;
    }
  }

  /** Two link tables in which the same trackers are referred to have the same orphans, in
      the same order. */
  lemma {:induction false} OrphansCongruent(trackers: seq<TrackerId>, l1: seq<Link>, l2: seq<Link>)
    requires forall t :: t in trackers ==> (Referrers(l1, t) == [] <==> Referrers(l2, t) == [])
    ensures Orphans(trackers, l1) == Orphans(trackers, l2)
  {
    if trackers != [] {
      OrphansCongruent(trackers[1..], l1, l2);
    }
  }

  /** The order in which rows are deleted does not matter: only which rows are gone. */
  lemma DeletionOrderIrrelevant(trackers: seq<TrackerId>, links: seq<Link>, rows1: seq<RowId>, rows2: seq<RowId>)
    requires forall x :: x in rows1 <==> x in rows2
    ensures Orphans(trackers, DeleteRows(links, rows1)) == Orphans(trackers, DeleteRows(links, rows2))
  {
    forall t | t in trackers
      ensures Referrers(DeleteRows(links, rows1), t) == [] <==> Referrers(DeleteRows(links, rows2), t) == []
    {
      OrphanWhenReferrersGone([t], links, rows1, t);
      OrphanWhenReferrersGone([t], links, rows2, t);
    }
    OrphansCongruent(trackers, DeleteRows(links, rows1), DeleteRows(links, rows2));
  }

  /** The orphan test: one tracker referred to by three rows (a page's field, a second
      page's field and a through-table row) is an orphan exactly when all three are
      deleted, whatever the order. */
  lemma ThreeReferrers(vt: TrackerId, a: RowId, b: RowId, c: RowId, rows: seq<RowId>)
    ensures Orphans([vt], DeleteRows([Link(a, vt), Link(b, vt), Link(c, vt)], rows)) ==
              if a in rows && b in rows && c in rows then [vt] else []
  {
    var links := [Link(a, vt), Link(b, vt), Link(c, vt)];
    OrphanExactlyWhenAllGone(vt, links, rows);
    ReferrersOfThree(vt, a, b, c);
    if a in rows && b in rows && c in rows {
      assert forall x :: x in Referrers(links, vt) ==> x in rows;
    } else {
      var x :| x in [a, b, c] && x !in rows;
      assert x in Referrers(links, vt);
    }
  }

  /** With a single tracker, orphan() returns it when every row that referred to it is
      deleted, and nothing otherwise. */
  lemma OrphanExactlyWhenAllGone(t: TrackerId, links: seq<Link>, rows: seq<RowId>)
    ensures Orphans([t], DeleteRows(links, rows)) ==
              if forall x :: x in Referrers(links, t) ==> x in rows then [t] else []
  {
    SingleTracker(t, DeleteRows(links, rows));
    OrphanWhenReferrersGone([t], links, rows, t);
  }

  lemma ReferrersOfThree(t: TrackerId, a: RowId, b: RowId, c: RowId)
    ensures forall x :: x in Referrers([Link(a, t), Link(b, t), Link(c, t)], t) <==> x in [a, b, c]
  {
  }

  /** With a single tracker, orphan() returns it or nothing. */
  lemma SingleTracker(t: TrackerId, links: seq<Link>)
    ensures Orphans([t], links) == if Referrers(links, t) == [] then [t] else []
  {
    assert [t][1..] == [];
  }
}
