/**
 Small histories on which the lifecycle departs from its description: a target associated late, a coverage
 array with an undecodable element, and evidence held by a failed scan only.
 */
module LifecycleLimits {
  import opened ScanStates
  import opened Wrappers
  import opened Timeline
  import opened LifecycleDb
  import opened LifecycleDelete
  import opened LifecycleRuns

  const SEEN := Observation("k", "t", "h:443")
  const FIRST_SCAN := Scan(1, Some(1), Queued, NodeTrace, None, 0)
  const CLAIMING_SCAN := Scan(2, Some(2), Queued, NodeTrace, Some([Pair("t", "h:443")]), 0)
  const LATE_SCAN := Scan(3, Some(2), Queued, NodeTrace, None, 0)
  const JUNK_SCAN := Scan(2, Some(1), Queued, NodeTrace, Some([Pair("t", "h:443"), Junk]), 0)
  const FAILING_SCAN := Scan(2, Some(1), Queued, NodeTrace, None, 0)

  /** The tables after one complete scan of target 1 that saw one finding. */
  ghost predicate AfterFirstScan(db: Db) {
    && Sync(db) && db.scans == map[1 := FIRST_SCAN.(state := Complete)]
    && "k" in db.rows && db.rows["k"] == Row("t", "h:443", History(Some(1), Some(1), Some(1), 0))
    && Observers(db, "k") == {1}
  }

  lemma OneScanOneFinding() returns (db: Db)
    ensures db == RunScan(EMPTY, 1, FIRST_SCAN, [SEEN])
    ensures AfterFirstScan(db)
  {
    assert Keys([SEEN]) == {"k"} by { assert SEEN in [SEEN]; }
    RunScanKeepsSync(EMPTY, 1, FIRST_SCAN, [SEEN]);
    RunRow(EMPTY, 1, FIRST_SCAN, [SEEN], "k");
    db := RunScan(EMPTY, 1, FIRST_SCAN, [SEEN]);
    var db0 := Insert(EMPTY, 1, FIRST_SCAN);
    assert [SEEN][..0] == [] && IngestAll(db0, 1, [SEEN]) == Ingest(db0, 1, SEEN);
  }

  // ---- A target associated late ----

  /** An in-order run of one scan, fixed endpoint and sound coverage, that leaves its row out of step. */
  ghost predicate OutOfStep(db: Db, s: ScanId, scan: Scan, o: Observation) {
    && Sync(db) && InOrder(db, s, scan.createdAt) && WellFormedCoverage(scan) && o.key in db.rows
    && o.endpoint == db.rows[o.key].endpoint && o.template != ""
    && var db' := RunScan(db, s, scan, [o]);
    o.key in db'.rows && !InSync(db', o.key)
  }

  lemma ThenOneClaimingScan(db: Db) returns (db': Db)
    requires AfterFirstScan(db)
    ensures Sync(db') && db'.scans == db.scans[2 := CLAIMING_SCAN.(state := Complete)]
    ensures "k" in db'.rows && db'.rows["k"] == db.rows["k"] && Observers(db', "k") == {1}
  {
    SyncIsSettled(db);
    RunScanKeepsSync(db, 2, CLAIMING_SCAN, []);
    RunRow(db, 2, CLAIMING_SCAN, [], "k");
    db' := RunScan(db, 2, CLAIMING_SCAN, []);
  }

  lemma ThenTheLateScan(db: Db)
    requires Sync(db) && db.scans == map[1 := FIRST_SCAN.(state := Complete), 2 := CLAIMING_SCAN.(state := Complete)]
    requires "k" in db.rows && db.rows["k"] == Row("t", "h:443", History(Some(1), Some(1), Some(1), 0))
    requires Observers(db, "k") == {1}
    ensures OutOfStep(db, 3, LATE_SCAN, SEEN)
  {
    assert CompleteScans(db) == {1, 2};
    assert Keys([SEEN]) == {"k"} by { assert SEEN in [SEEN]; }
    assert ClaimsFor(db, Some(2), "k", 2) && AfterFirst(db, "k", 2);
    LateAssociationBreaksSync(db, 3, LATE_SCAN, [SEEN], "k");
  }

  /** Such a run exists: three scans, two targets, one finding. */
  lemma LateAssociationHappens()
    ensures exists db: Db, s: ScanId, scan: Scan, o: Observation :: OutOfStep(db, s, scan, o)
  {
    var db1 := OneScanOneFinding();
    var db2 := ThenOneClaimingScan(db1);
    ThenTheLateScan(db2);
  }

  // ---- An undecodable coverage element ----

  lemma ThenOneJunkScan(db: Db)
    requires AfterFirstScan(db)
    ensures var db' := RunScan(db, 2, JUNK_SCAN, []);
            && CanIngest(db, 2, JUNK_SCAN, []) && Associated(db, "k", JUNK_SCAN.target) && "k" in db'.rows
            && db'.rows["k"].history.covering == Some(2) && TimelineOf(db', "k").covering == Some(1)
  {
    var db' := RunScan(db, 2, JUNK_SCAN, []);
    assert 1 in Observers(db, "k");
    SyncIsSettled(db);
    RunRow(db, 2, JUNK_SCAN, [], "k");
    ReplayOfRun(db, 2, JUNK_SCAN, "k", false, db');
  }

  /**
   The first scan saw the finding; the second claims to have covered it, in an array with one more element
   that does not decode. Completion believes the claim, the replay does not.
   */
  lemma JunkBreaksSync()
    ensures var db := RunScan(EMPTY, 1, FIRST_SCAN, [SEEN]);
            var db' := RunScan(db, 2, JUNK_SCAN, []);
            && Sync(db) && CanIngest(db, 2, JUNK_SCAN, []) && "k" in db.rows && "k" in db'.rows
            && Associated(db, "k", JUNK_SCAN.target)
            && db'.rows["k"].history.covering == Some(2) && TimelineOf(db', "k").covering == Some(1)
            && !InSync(db', "k")
  {
    var db := OneScanOneFinding();
    ThenOneJunkScan(db);
  }

  // ---- Evidence held by a failed scan ----

  /** Deleting the only complete observer drops the row, although other scans' occurrences stay, unlinked. */
  lemma FailedEvidenceIsNotEnough(db: Db, s: ScanId, f: string)
    requires Consistent(db) && DeleteScan(db, s).Ok? && f in db.rows && s in Observers(db, f)
    requires forall x :: x in Observers(db, f) && x != s ==> x !in CompleteScans(db)
    ensures var db' := DeleteScan(db, s).value;
            && f !in db'.rows
            && forall o :: o in db.occs && db.occs[o].finding == Some(f) && db.occs[o].scan != s ==>
                             o in db'.occs && db'.occs[o] == Occurrence(db.occs[o].scan, None)
  {
    var db' := DeleteScan(db, s).value;
    AffectedSetIsComplete(db, s, f);
    forall o | o in db.occs && db.occs[o].finding == Some(f) && db.occs[o].scan != s
      ensures o in db'.occs && db'.occs[o] == Occurrence(db.occs[o].scan, None)
    {
      OccurrenceAfterDelete(db, s, o);
    }
  }

  lemma ThenOneFailingScan(db: Db)
    requires AfterFirstScan(db)
    ensures var db' := FailScan(db, 2, FAILING_SCAN, [SEEN]);
            && Consistent(db') && "k" in db'.rows && Observers(db', "k") == {1, 2} && CompleteScans(db') == {1}
            && 1 in db'.scans && db'.scans[1].state == Complete
  {
    assert Keys([SEEN]) == {"k"} by { assert SEEN in [SEEN]; }
    SyncIsSettled(db);
    IngestInOrder(db, 2, FAILING_SCAN, [SEEN], "k");
    FailsAfter(IngestAll(Insert(db, 2, FAILING_SCAN), 2, [SEEN]));
  }

  lemma FailsAfter(db: Db)
    requires Consistent(db) && "k" in db.rows && Observers(db, "k") == {1, 2} && db.scans.Keys == {1, 2}
    requires db.scans[1].state == Complete
    ensures var db' := SetState(db, 2, Failed);
            && Consistent(db') && "k" in db'.rows && Observers(db', "k") == {1, 2} && CompleteScans(db') == {1}
            && 1 in db'.scans && db'.scans[1].state == Complete
  {
    assert Observers(SetState(db, 2, Failed), "k") == Observers(db, "k");
  }

  lemma ThenDeleteTheFirst(db: Db)
    requires Consistent(db) && "k" in db.rows && Observers(db, "k") == {1, 2} && CompleteScans(db) == {1}
    requires 1 in db.scans && db.scans[1].state == Complete
    ensures DeleteScan(db, 1).Ok?
    ensures var db' := DeleteScan(db, 1).value;
            "k" !in db'.rows && exists o :: o in db'.occs && db'.occs[o] == Occurrence(2, None)
  {
    FailedEvidenceIsNotEnough(db, 1, "k");
    assert 2 in Observers(db, "k");
    var o :| o in db.occs && db.occs[o].finding == Some("k") && db.occs[o].scan == 2;
    assert DeleteScan(db, 1).value.occs[o] == Occurrence(2, None);
  }

  /** Such a history: one complete and one failed scan saw the finding, and the complete one is deleted. */
  lemma FailedEvidenceIsDropped()
    ensures var db := FailScan(RunScan(EMPTY, 1, FIRST_SCAN, [SEEN]), 2, FAILING_SCAN, [SEEN]);
            && "k" in db.rows && Observers(db, "k") == {1, 2} && DeleteScan(db, 1).Ok?
            && var db' := DeleteScan(db, 1).value;
            && "k" !in db'.rows
            && exists o :: o in db'.occs && db'.occs[o] == Occurrence(2, None)
  {
    var db1 := OneScanOneFinding();
    ThenOneFailingScan(db1);
    ThenDeleteTheFirst(FailScan(db1, 2, FAILING_SCAN, [SEEN]));
  }
}
