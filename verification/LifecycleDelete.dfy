/**
 Deleting a scan repairs only the affected rows. That set is complete: for every other finding,
 in any number of target scopes, the deleted scan made no difference. Hence two deletions commute.
 No hypothesis about ingest order or agreement with the replay is needed here.
 */
module LifecycleDelete {
  import opened ScanStates
  import opened Wrappers
  import opened Timeline
  import opened LifecycleDb

  /** The replay of a finding depends on the scans, its observers and its (template, endpoint) only. */
  lemma SameEvidence(db: Db, db': Db, f: string)
    requires f in db.rows && f in db'.rows && db.scans == db'.scans
    requires Observers(db, f) == Observers(db', f)
    requires db.rows[f].template == db'.rows[f].template && db.rows[f].endpoint == db'.rows[f].endpoint
    ensures Covering(db, f) == Covering(db', f)
    ensures ReplayOf(db, f) == ReplayOf(db', f)
  {
  }

  /** An observing scan always counts as covering. */
  lemma ObserverCovers(db: Db, s: ScanId, f: string)
    requires f in db.rows && s in db.scans && s in Observers(db, f)
    ensures CoveredBy(db, s, f)
  {
  }

  /** A replay has seen the finding exactly when a complete scan observed it. */
  lemma SeenIffObserved(db: Db, f: string)
    requires f in db.rows
    ensures TimelineOf(db, f).last.Some? <==> exists s :: s in CompleteScans(db) && s in Observers(db, f)
  {
    var order := Chronological(db.scans, CompleteScans(db));
    ChronologicalOrder(db.scans, CompleteScans(db));
    ReplayShape(order, Covering(db, f), Observers(db, f));
    forall s | s in CompleteScans(db) && s in Observers(db, f)
      ensures s in order && s in Covering(db, f)
    {
      ObserverCovers(db, s, f);
    }
  }

  lemma AssociatedAfterRemove(db: Db, s: ScanId, f: string, t: Option<nat>)
    requires s !in Observers(db, f)
    ensures Observers(RemoveScan(db, s), f) == Observers(db, f)
    ensures Associated(RemoveScan(db, s), f, t) <==> Associated(db, f, t)
  {
    ObserversAfterRemove(db, s, f);
    var db' := RemoveScan(db, s);
    assert forall x :: x in Observers(db, f) ==> (x in db.scans <==> x in db'.scans);
  }

  lemma UnaffectedCovering(db: Db, s: ScanId, f: string)
    requires s in db.scans && f in db.rows && f !in Affected(db, s)
    ensures RemoveScan(db, s).rows[f] == db.rows[f]
    ensures s !in Covering(db, f) && Covering(RemoveScan(db, s), f) == Covering(db, f)
  {
    var db' := RemoveScan(db, s);
    assert db'.rows[f] == db.rows[f];
    AssociatedAfterRemove(db, s, f, db.scans[s].target);
    assert !CoveredBy(db, s, f);
    forall x | x in db'.scans
      ensures CoveredBy(db', x, f) <==> CoveredBy(db, x, f)
    {
      AssociatedAfterRemove(db, s, f, db.scans[x].target);
    }
  }

  lemma OrderAfterRemove(db: Db, s: ScanId, covered: set<ScanId>, present: set<ScanId>)
    requires s in db.scans && s !in covered
    ensures var db' := RemoveScan(db, s);
            Replay(Chronological(db'.scans, CompleteScans(db')), covered, present) ==
            Replay(Chronological(db.scans, CompleteScans(db)), covered, present)
  {
    var db' := RemoveScan(db, s);
    var all := CompleteScans(db);
    assert CompleteScans(db') == all - {s};
    ChronologicalCongruence(db.scans, db'.scans, all - {s});
    if s in all {
      var before, after := ChronologicalRemove(db.scans, all, s);
      ReplayWithoutUncovered(before, s, after, covered, present);
    } else {
      assert all - {s} == all;
    }
  }

  /** A finding outside the affected set has the same history with and without the scan. */
  lemma UnaffectedTimeline(db: Db, s: ScanId, f: string)
    requires s in db.scans && f in db.rows && f !in Affected(db, s)
    ensures RemoveScan(db, s).rows[f] == db.rows[f]
    ensures ReplayOf(RemoveScan(db, s), f) == ReplayOf(db, f)
  {
    UnaffectedCovering(db, s, f);
    AssociatedAfterRemove(db, s, f, None);
    OrderAfterRemove(db, s, Covering(db, f), Observers(db, f));
  }

  /** What the deletion does to one row, in terms of the tables without the scan. */
  lemma RowAfterDelete(db: Db, s: ScanId, f: string)
    requires DeleteScan(db, s).Ok? && f in db.rows
    ensures var db', mid := DeleteScan(db, s).value, RemoveScan(db, s);
            && db'.scans == mid.scans
            && (f in db'.rows <==> f !in Affected(db, s) || TimelineOf(mid, f).last.Some?)
            && (f in db'.rows && f in Affected(db, s) ==>
                  db'.rows[f] == db.rows[f].(history := TimelineOf(mid, f)))
            && (f !in Affected(db, s) ==> db'.rows[f] == db.rows[f])
            && Observers(db', f) == (if f in db'.rows then Observers(db, f) - {s} else {})
            && (f in db'.rows ==> TimelineOf(db', f) == TimelineOf(mid, f))
  {
    var mid, ids := RemoveScan(db, s), Affected(db, s);
    var db' := Repair(mid, ids);
    ObserversAfterRemove(db, s, f);
    ObserversAfterRepair(mid, ids, f);
    if f !in ids {
      UnaffectedCovering(db, s, f);
    }
    if f in db'.rows {
      SameEvidence(mid, db', f);
    }
  }

  /** After the deletion, every affected row still there is exactly its replay, the rest are untouched. */
  lemma AffectedSetIsComplete(db: Db, s: ScanId, f: string)
    requires DeleteScan(db, s).Ok? && f in db.rows
    ensures var db' := DeleteScan(db, s).value;
            if f in Affected(db, s) then
              && (f in db'.rows <==> exists x :: x in CompleteScans(db) && x != s && x in Observers(db, f))
              && (f in db'.rows ==> db'.rows[f] == db.rows[f].(history := TimelineOf(db', f)))
            else
              && f in db'.rows && db'.rows[f] == db.rows[f]
              && TimelineOf(db', f) == TimelineOf(db, f)
  {
    RowAfterDelete(db, s, f);
    if f in Affected(db, s) {
      SeenAfterRemove(db, s, f);
    } else {
      UnaffectedTimeline(db, s, f);
    }
  }

  lemma SeenAfterRemove(db: Db, s: ScanId, f: string)
    requires f in db.rows
    ensures TimelineOf(RemoveScan(db, s), f).last.Some? <==>
            exists x :: x in CompleteScans(db) && x != s && x in Observers(db, f)
  {
    var mid := RemoveScan(db, s);
    SeenIffObserved(mid, f);
    ObserversAfterRemove(db, s, f);
    assert CompleteScans(mid) == CompleteScans(db) - {s};
    if x :| x in CompleteScans(db) && x != s && x in Observers(db, f) {
      assert x in CompleteScans(mid) && x in Observers(mid, f);
    }
  }

  // ---- Two deletions ----

  /** The tables with two scans gone, before any repair. */
  ghost function WithoutBoth(db: Db, a: ScanId, b: ScanId): Db {
    RemoveScan(RemoveScan(db, a), b)
  }

  lemma WithoutBothSymmetric(db: Db, a: ScanId, b: ScanId)
    ensures WithoutBoth(db, a, b) == WithoutBoth(db, b, a)
  {
    assert WithoutBoth(db, a, b).scans == WithoutBoth(db, b, a).scans;
    assert WithoutBoth(db, a, b).occs == WithoutBoth(db, b, a).occs;
    RowsWithoutBoth(db, a, b);
  }

  lemma RowsWithoutBoth(db: Db, a: ScanId, b: ScanId)
    ensures WithoutBoth(db, a, b).rows == WithoutBoth(db, b, a).rows
  {
    var l, r := WithoutBoth(db, a, b).rows, WithoutBoth(db, b, a).rows;
    forall f | f in l
      ensures f in r && l[f] == r[f]
    {
    }
  }

  ghost predicate RepairedAway(db: Db, a: ScanId, b: ScanId, f: string)
    requires a in db.scans && b in db.scans && f in db.rows
  {
    f in Affected(db, a) + Affected(db, b) && TimelineOf(WithoutBoth(db, a, b), f).last.None?
  }

  ghost function RepairedRow(db: Db, a: ScanId, b: ScanId, f: string): Row
    requires a in db.scans && b in db.scans && f in db.rows
  {
    if f in Affected(db, a) + Affected(db, b)
    then db.rows[f].(history := TimelineOf(WithoutBoth(db, a, b), f))
    else db.rows[f]
  }

  lemma SameReasons(db: Db, a: ScanId, b: ScanId, f: string)
    requires a != b && f in db.rows && b in db.scans
    requires DeleteScan(db, a).Ok? && f !in Affected(db, a)
    ensures var da := DeleteScan(db, a).value;
            && f in da.rows && b in da.scans && da.rows[f] == db.rows[f] && da.scans[b] == db.scans[b]
            && Observers(da, f) == Observers(db, f)
            && (Associated(da, f, db.scans[b].target) <==> Associated(db, f, db.scans[b].target))
  {
    RowAfterDelete(db, a, f);
    AssociatedAfterRemove(db, a, f, db.scans[b].target);
  }

  /** Deleting a scan a finding does not depend on does not change what other deletions affect. */
  lemma SameAffected(db: Db, a: ScanId, b: ScanId, f: string)
    requires a != b && f in db.rows && b in db.scans
    requires DeleteScan(db, a).Ok? && f !in Affected(db, a)
    ensures f in DeleteScan(db, a).value.rows
    ensures f in Affected(DeleteScan(db, a).value, b) <==> f in Affected(db, b)
  {
    SameReasons(db, a, b, f);
  }

  lemma EvidenceWithoutBoth(db: Db, a: ScanId, b: ScanId, f: string)
    requires a != b && f in db.rows && DeleteScan(db, a).Ok? && f in DeleteScan(db, a).value.rows
    ensures TimelineOf(RemoveScan(DeleteScan(db, a).value, b), f) == TimelineOf(WithoutBoth(db, a, b), f)
  {
    var da, both := DeleteScan(db, a).value, WithoutBoth(db, a, b);
    RowAfterDelete(db, a, f);
    ObserversAfterRemove(db, a, f);
    ObserversAfterRemove(RemoveScan(db, a), b, f);
    ObserversAfterRemove(da, b, f);
    SameEvidence(RemoveScan(da, b), both, f);
  }

  /** Nothing seen without `a` means nothing seen without both. */
  lemma SeenWithoutBoth(db: Db, a: ScanId, b: ScanId, f: string)
    requires a != b && f in db.rows && TimelineOf(RemoveScan(db, a), f).last.None?
    ensures TimelineOf(WithoutBoth(db, a, b), f).last.None?
  {
    var mid := RemoveScan(db, a);
    SeenAfterRemove(mid, b, f);
    SeenIffObserved(mid, f);
  }

  /** The row two deletions leave, in terms that do not mention their order. */
  lemma AfterTwoDeletions(db: Db, a: ScanId, b: ScanId, f: string)
    requires a != b && f in db.rows
    requires DeleteScan(db, a).Ok? && DeleteScan(db, b).Ok?
    ensures var da := DeleteScan(db, a).value;
            && DeleteScan(da, b).Ok?
            && var ab := DeleteScan(da, b).value;
            && (f in ab.rows <==> !RepairedAway(db, a, b, f))
            && (f in ab.rows ==> ab.rows[f] == RepairedRow(db, a, b, f))
  {
    var da := DeleteScan(db, a).value;
    RowAfterDelete(db, a, f);
    if f !in da.rows {
      SeenWithoutBoth(db, a, b, f);
      StaysGone(da, b, f);
    } else {
      EvidenceWithoutBoth(db, a, b, f);
      RowAfterDelete(da, b, f);
      if f !in Affected(db, a) {
        SameAffected(db, a, b, f);
      }
      if f !in Affected(da, b) {
        UnaffectedTimeline(da, b, f);
      }
    }
  }

  lemma StaysGone(db: Db, s: ScanId, f: string)
    requires DeleteScan(db, s).Ok? && f !in db.rows
    ensures f !in DeleteScan(db, s).value.rows
  {
  }

  /** An occurrence survives with its scan, linked as long as its finding's row is there. */
  lemma OccurrenceAfterDelete(db: Db, s: ScanId, o: nat)
    requires Consistent(db) && DeleteScan(db, s).Ok?
    ensures var db' := DeleteScan(db, s).value;
            && (o in db'.occs <==> o in db.occs && db.occs[o].scan != s)
            && (o in db'.occs ==> db'.occs[o] == Relinked(db.occs[o], db'.rows.Keys))
  {
  }

  ghost function Relinked(occ: Occurrence, rows: set<string>): Occurrence {
    if occ.finding.Some? && occ.finding.value !in rows then occ.(finding := None) else occ
  }

  lemma OccurrenceAfterTwoDeletions(db: Db, a: ScanId, b: ScanId, o: nat)
    requires Consistent(db) && a != b
    requires DeleteScan(db, a).Ok? && DeleteScan(db, b).Ok?
    ensures var da := DeleteScan(db, a).value;
            && DeleteScan(da, b).Ok?
            && var ab := DeleteScan(da, b).value;
            && (o in ab.occs <==> o in db.occs && db.occs[o].scan != a && db.occs[o].scan != b)
            && (o in ab.occs ==> ab.occs[o] == Relinked(db.occs[o], ab.rows.Keys))
  {
    var da := DeleteScan(db, a).value;
    OccurrenceAfterDelete(db, a, o);
    DeleteKeepsConsistent(db, a);
    OccurrenceAfterDelete(da, b, o);
    if o in da.occs && db.occs[o].finding.Some? && db.occs[o].finding.value !in da.rows {
      StaysGone(da, b, db.occs[o].finding.value);
    }
  }

  lemma RowsCommute(db: Db, a: ScanId, b: ScanId, f: string)
    requires a != b && DeleteScan(db, a).Ok? && DeleteScan(db, b).Ok?
    ensures var da, dz := DeleteScan(db, a).value, DeleteScan(db, b).value;
            && DeleteScan(da, b).Ok? && DeleteScan(dz, a).Ok?
            && var ab, ba := DeleteScan(da, b).value, DeleteScan(dz, a).value;
            && (f in ab.rows <==> f in ba.rows) && (f in ab.rows ==> ab.rows[f] == ba.rows[f])
  {
    if f in db.rows {
      AfterTwoDeletions(db, a, b, f);
      AfterTwoDeletions(db, b, a, f);
      WithoutBothSymmetric(db, a, b);
    } else {
      StaysGone(db, a, f);
      StaysGone(db, b, f);
      StaysGone(DeleteScan(db, a).value, b, f);
      StaysGone(DeleteScan(db, b).value, a, f);
    }
  }

  ghost predicate SameRow(x: Db, y: Db, f: string) {
    (f in x.rows <==> f in y.rows) && (f in x.rows ==> x.rows[f] == y.rows[f])
  }

  ghost predicate SameOccurrence(x: Db, y: Db, o: nat) {
    (o in x.occs <==> o in y.occs) && (o in x.occs ==> x.occs[o] == y.occs[o])
  }

  lemma SameTables(x: Db, y: Db)
    requires x.scans == y.scans && x.nextOcc == y.nextOcc
    requires (forall f :: SameRow(x, y, f)) && (forall o :: SameOccurrence(x, y, o))
    ensures x == y
  {
    assert forall f :: f in x.rows ==> SameRow(x, y, f);
    assert forall f :: f in y.rows ==> SameRow(x, y, f);
    assert x.rows == y.rows;
    assert forall o :: o in x.occs ==> SameOccurrence(x, y, o);
    assert forall o :: o in y.occs ==> SameOccurrence(x, y, o);
    assert x.occs == y.occs;
  }

  lemma ScansCommute(db: Db, a: ScanId, b: ScanId)
    requires a != b && DeleteScan(db, a).Ok? && DeleteScan(db, b).Ok?
    ensures var da, dz := DeleteScan(db, a).value, DeleteScan(db, b).value;
            && DeleteScan(da, b).Ok? && DeleteScan(dz, a).Ok?
            && var ab, ba := DeleteScan(da, b).value, DeleteScan(dz, a).value;
            ab.scans == ba.scans && ab.nextOcc == ba.nextOcc
  {
    assert db.scans - {a} - {b} == db.scans - {b} - {a};
  }

  lemma OccurrencesCommute(db: Db, a: ScanId, b: ScanId, o: nat)
    requires Consistent(db) && a != b && DeleteScan(db, a).Ok? && DeleteScan(db, b).Ok?
    ensures var da, dz := DeleteScan(db, a).value, DeleteScan(db, b).value;
            && DeleteScan(da, b).Ok? && DeleteScan(dz, a).Ok?
            && SameOccurrence(DeleteScan(da, b).value, DeleteScan(dz, a).value, o)
  {
    OccurrenceAfterTwoDeletions(db, a, b, o);
    OccurrenceAfterTwoDeletions(db, b, a, o);
    if o in db.occs && db.occs[o].finding.Some? {
      RowsCommute(db, a, b, db.occs[o].finding.value);
    }
  }

  /** Deleting two scans gives the same tables in either order. */
  lemma DeletionsCommute(db: Db, a: ScanId, b: ScanId)
    requires Consistent(db) && a != b
    requires DeleteScan(db, a).Ok? && DeleteScan(db, b).Ok?
    ensures var da, dz := DeleteScan(db, a).value, DeleteScan(db, b).value;
            DeleteScan(da, b).Ok? && DeleteScan(dz, a) == DeleteScan(da, b)
  {
    ScansCommute(db, a, b);
    var x := DeleteScan(DeleteScan(db, a).value, b).value;
    var y := DeleteScan(DeleteScan(db, b).value, a).value;
    forall f ensures SameRow(x, y, f) { RowsCommute(db, a, b, f); }
    forall o ensures SameOccurrence(x, y, o) { OccurrencesCommute(db, a, b, o); }
    SameTables(x, y);
  }
}
