/**
 The store that keeps the lifecycle tables. Each method is one transaction; the repair walks the
 affected rows one by one and replays each from maps built out of the surviving tables.
 */
module LifecycleStore {
  import opened ScanStates
  import opened Wrappers
  import opened Timeline
  import Tables = LifecycleDb
  import opened LifecycleDb

  /** Leaving out scans that do not cover the finding does not change its replay. */
  lemma {:induction false} ReplayOfSubset(scans: map<ScanId, Scan>, all: set<ScanId>, some: set<ScanId>,
                                          covered: set<ScanId>, present: set<ScanId>)
    requires some <= all <= scans.Keys
    requires forall s :: s in all && s !in some ==> s !in covered
    ensures Replay(Chronological(scans, some), covered, present) == Replay(Chronological(scans, all), covered, present)
    decreases all
  {
    if all != {} {
      var n := Newest(scans, all);
      ReplayAppend(Chronological(scans, all - {n}), n, covered, present);
      if n in some {
        assert Newest(scans, some) == n;
        ReplayAppend(Chronological(scans, some - {n}), n, covered, present);
        ReplayOfSubset(scans, all - {n}, some - {n}, covered, present);
      } else {
        ReplayOfSubset(scans, all - {n}, some, covered, present);
      }
    }
  }

  /** Repairing one more row after others is repairing them together. */
  lemma RepairOneMore(db: Db, done: set<string>, f: string)
    requires f in db.rows && f !in done
    ensures f in Repair(db, done).rows
    ensures var mid, h := Repair(db, done), TimelineOf(db, f);
            Repair(db, done + {f}) ==
            if h.last.Some? then mid.(rows := mid.rows[f := mid.rows[f].(history := h)])
            else mid.(rows := mid.rows - {f}, occs := Unlink(mid.occs, f))
  {
    var mid, next := Repair(db, done), Repair(db, done + {f});
    if TimelineOf(db, f).last.Some? {
      assert next.rows == mid.rows[f := mid.rows[f].(history := TimelineOf(db, f))];
      assert next.occs == mid.occs;
    } else {
      assert next.rows == mid.rows - {f};
      assert next.occs == Unlink(mid.occs, f);
    }
  }

  /** ON DELETE SET NULL on the link from an occurrence to its finding. */
  function Unlink(occs: map<nat, Occurrence>, f: string): map<nat, Occurrence> {
    map o | o in occs :: if occs[o].finding == Some(f) then occs[o].(finding := None) else occs[o]
  }

  lemma RepairNothing(db: Db)
    ensures Repair(db, {}) == db
  {
    assert Repair(db, {}).rows == db.rows;
    assert Repair(db, {}).occs == db.occs;
  }

  lemma RepairOfExisting(db: Db, ids: set<string>)
    ensures Repair(db, ids * db.rows.Keys) == Repair(db, ids)
  {
    assert Repair(db, ids * db.rows.Keys).rows == Repair(db, ids).rows;
    assert Repair(db, ids * db.rows.Keys).occs == Repair(db, ids).occs;
  }

  class Store {
    var scans: map<ScanId, Scan>
    var occs: map<nat, Occurrence>
    var nextOcc: nat
    var rows: map<string, Row>

    function View(): Db
      reads this
    {
      Db(scans, occs, nextOcc, rows)
    }

    /** The foreign keys hold. */
    ghost predicate Valid()
      reads this
    {
      Consistent(View())
    }

    constructor ()
      ensures Valid() && View() == EMPTY
    {
      scans, occs, nextOcc, rows := map[], map[], 0, map[];
    }

    /** Inserts one occurrence and upserts its lifecycle row; fails on an unknown scan. */
    method IngestFinding(s: ScanId, obs: Observation) returns (r: Result<bool, DeleteError>)
      requires Valid()
      modifies this
      ensures Valid()
      ensures r.Err? <==> s !in old(scans)
      ensures r.Err? ==> View() == old(View())
      ensures r.Ok? ==> s in old(scans) && View() == Ingest(old(View()), s, obs)
                        && (r.value <==> obs.key !in old(rows))
    {
      if s !in scans {
        return Err(NotFound);
      }
      IngestKeepsConsistent(View(), s, obs);
      occs, nextOcc := occs[nextOcc := Occurrence(s, Some(obs.key))], nextOcc + 1;
      if obs.key !in rows {
        rows := rows[obs.key := Row(obs.template, obs.endpoint, History(Some(s), Some(s), None, 0))];
        return Ok(true);
      }
      var row := rows[obs.key];
      var newer := Behind(scans, row.history.last, s);
      var first, last, times := row.history.first, row.history.last, row.history.times;
      if newer && Behind(scans, row.history.covering, s) && row.history.covering.Some?
         && last != row.history.covering && last != Some(s) {
        times := times + 1;
      }
      if Ahead(scans, first, s) {
        first := Some(s);
      }
      if newer {
        last := Some(s);
      }
      rows := rows[obs.key := Row(row.template, if newer then obs.endpoint else row.endpoint,
                                  History(first, last, row.history.covering, times))];
      return Ok(false);
    }

    /** Marks a scan complete unless it was cancelled, and moves the covering pointers it proves. */
    method MarkComplete(s: ScanId)
      requires Valid()
      modifies this
      ensures Valid()
      ensures View() == Tables.MarkComplete(old(View()), s)
    {
      CompleteKeepsConsistent(View(), s);
      if s !in scans || scans[s].state == Cancelled {
        return;
      }
      scans := scans[s := scans[s].(state := Complete)];
      var db := View();
      rows := map f | f in rows :: if Advances(db, s, f, true)
                                   then rows[f].(history := rows[f].history.(covering := Some(s))) else rows[f];
    }

    /** Deletes a finished scan with its occurrences, then repairs the rows it may have shaped. */
    method DeleteScan(s: ScanId) returns (error: Option<DeleteError>)
      requires Valid()
      modifies this
      ensures Valid()
      ensures error == Some(NotFound) <==> s !in old(scans)
      ensures error == Some(Conflict) <==> s in old(scans) && old(scans)[s].state in {Queued, Running}
      ensures match Tables.DeleteScan(old(View()), s)
              case Err(e) => error == Some(e) && View() == old(View())
              case Ok(db) => error == None && View() == db
    {
      if s !in scans {
        return Some(NotFound);
      }
      if InFlight(scans[s].state) {
        return Some(Conflict);
      }
      var affected := Affected(View(), s);
      scans := scans - {s};
      occs := map o | o in occs && occs[o].scan != s :: occs[o];
      rows := map f | f in rows :: rows[f].(history := NullOut(rows[f].history, s));
      assert View() == RemoveScan(old(View()), s);
      RemoveKeepsConsistent(old(View()), s);
      RepairLifecycleFindings(affected);
      return None;
    }

    /** The scans that observed each affected finding, and the target scopes they ran in. */
    method ObservationsOf(ids: set<string>) returns (byLifecycle: map<string, map<ScanId, nat>>,
                                                     targets: map<string, set<Option<nat>>>)
      requires Valid()
      ensures ReadsObservations(View(), ids, byLifecycle, targets)
    {
      byLifecycle, targets := map[], map[];
      var todo := occs.Keys;
      ghost var done := {};
      while todo != {}
        invariant done !! todo && done + todo == occs.Keys
        invariant Tracks(View(), done, ids, byLifecycle, targets)
      {
        var o :| o in todo;
        todo := todo - {o};
        if occs[o].finding.Some? && occs[o].finding.value in ids {
          var f, scan := occs[o].finding.value, occs[o].scan;
          SeeLinked(View(), done, ids, byLifecycle, targets, o, f);
          byLifecycle := AddScan(byLifecycle, f, scan, o);
          targets := targets[f := TargetsIn(targets, f) + {scans[scan].target}];
        } else {
          SeeUnrelated(View(), done, ids, byLifecycle, targets, o);
        }
        done := done + {o};
      }
      SeenAll(View());
    }

    /** The decoded claims of each scan that may claim coverage at all. */
    method ClaimsOf(scanIds: seq<ScanId>) returns (claims: map<ScanId, set<CoverageItem>>)
      requires forall s :: s in scanIds ==> s in scans
      ensures ReadsClaims(scans, scanIds, claims)
    {
      claims := map[];
      for i := 0 to |scanIds|
        invariant forall s :: s in claims <==>
          s in scanIds[..i] && scans[s].coverage.Some? && Junk !in scans[s].coverage.value
        invariant forall s :: s in claims ==>
          claims[s] == set item | item in scans[s].coverage.value && item.Pair? && item.template != "" && item.endpoint != ""
      {
        var s := scanIds[i];
        assert scanIds[..i + 1] == scanIds[..i] + [s];
        if scans[s].coverage.Some? && Junk !in scans[s].coverage.value {
          claims := claims[s := set item | item in scans[s].coverage.value && item.Pair?
                                           && item.template != "" && item.endpoint != ""];
        }
      }
      assert scanIds[..|scanIds|] == scanIds;
    }

    /** Replays one affected row and writes it back, or drops it. */
    method RepairRow(ghost db: Db, ghost done: set<string>, f: string, scanIds: seq<ScanId>,
                     occByScan: map<ScanId, nat>, scope: set<Option<nat>>, claims: map<ScanId, set<CoverageItem>>)
      requires View() == Repair(db, done) && f in db.rows && f !in done
      requires occByScan.Keys == Observers(db, f) && forall t :: t in scope <==> Associated(db, f, t)
      requires ListsRelevant(db, f, scanIds) && ReadsClaims(db.scans, scanIds, claims)
      modifies this
      ensures View() == Repair(db, done + {f})
    {
      RepairOneMore(db, done, f);
      var template, endpoint, table := rows[f].template, rows[f].endpoint, scans;
      var covered := (s: ScanId) =>
        s in table && table[s].target in scope &&
        (s in occByScan
         || (AllowsClaimedCoverage(table[s].origin) && table[s].skipped == 0
             && s in claims && endpoint != "" && Pair(template, endpoint) in claims[s]));
      var first, last, latestOcc, covering, times := ComputeLifecycleTimeline(scanIds, covered, occByScan);
      CoveredAsInTables(db, f, scanIds, covered);
      if last.None? {
        rows, occs := rows - {f}, Unlink(occs, f);
      } else {
        rows := rows[f := rows[f].(history := History(first, last, covering, times))];
      }
    }

    /** Rebuilds the given rows; a row no complete scan supports any more is dropped. */
    method RepairLifecycleFindings(ids: set<string>)
      requires Valid()
      modifies this
      ensures Valid() && View() == Repair(old(View()), ids)
    {
      ghost var db := View();
      RepairOfExisting(db, ids);
      RepairKeepsConsistent(db, ids);
      if ids == {} {
        RepairNothing(db);
        return;
      }
      var byLifecycle, targets := ObservationsOf(ids);
      var relevant := set s | s in scans && scans[s].state == Complete
                              && exists f :: f in ids && scans[s].target in TargetsIn(targets, f);
      var scanIds := Chronological(scans, relevant);
      ChronologicalOrder(scans, relevant);
      var claims := ClaimsOf(scanIds);
      var existing := ids * rows.Keys;
      forall f | f in existing
        ensures ListsRelevant(db, f, scanIds)
      {
        assert forall t :: Associated(db, f, t) ==> t in TargetsIn(targets, f);
        assert IsRelevant(db, f, scanIds, relevant);
      }
      RepairRows(existing, scanIds, byLifecycle, targets, claims);
    }

    method RepairRows(existing: set<string>, scanIds: seq<ScanId>, byLifecycle: map<string, map<ScanId, nat>>,
                      targets: map<string, set<Option<nat>>>, claims: map<ScanId, set<CoverageItem>>)
      requires existing <= rows.Keys && ReadsObservations(View(), existing, byLifecycle, targets)
      requires ReadsClaims(scans, scanIds, claims)
      requires forall f :: f in existing ==> ListsRelevant(View(), f, scanIds)
      modifies this
      ensures View() == Repair(old(View()), existing)
    {
      ghost var db := View();
      RepairNothing(db);
      var todo := existing;
      ghost var done := {};
      while todo != {}
        invariant done !! todo && done + todo == existing
        invariant View() == Repair(db, done)
      {
        var f :| f in todo;
        RepairRow(db, done, f, scanIds, if f in byLifecycle then byLifecycle[f] else map[],
                  TargetsIn(targets, f), claims);
        todo, done := todo - {f}, done + {f};
      }
      assert done == existing;
    }
  }

  ghost function ScansSeen(db: Db, done: set<nat>, f: string): set<ScanId> {
    set o | o in done && o in db.occs && db.occs[o].finding == Some(f) :: db.occs[o].scan
  }

  ghost function TargetsSeen(db: Db, done: set<nat>, f: string): set<Option<nat>> {
    set o | o in done && o in db.occs && db.occs[o].finding == Some(f) && db.occs[o].scan in db.scans
      :: db.scans[db.occs[o].scan].target
  }

  ghost predicate ReadsObservations(db: Db, ids: set<string>, byLifecycle: map<string, map<ScanId, nat>>,
                                    targets: map<string, set<Option<nat>>>) {
    && (forall f :: f in ids ==> ScansIn(byLifecycle, f) == Observers(db, f))
    && (forall f, t :: f in ids ==> (t in TargetsIn(targets, f) <==> Associated(db, f, t)))
  }

  function AddScan(byLifecycle: map<string, map<ScanId, nat>>, f: string, scan: ScanId, o: nat)
    : map<string, map<ScanId, nat>>
  {
    byLifecycle[f := (if f in byLifecycle then byLifecycle[f] else map[])[scan := o]]
  }

  ghost predicate Tracks(db: Db, done: set<nat>, ids: set<string>, byLifecycle: map<string, map<ScanId, nat>>,
                         targets: map<string, set<Option<nat>>>) {
    && (forall f :: f in ids ==> ScansIn(byLifecycle, f) == ScansSeen(db, done, f))
    && (forall f :: f in ids ==> TargetsIn(targets, f) == TargetsSeen(db, done, f))
  }

  lemma SeeUnrelated(db: Db, done: set<nat>, ids: set<string>, byLifecycle: map<string, map<ScanId, nat>>,
                     targets: map<string, set<Option<nat>>>, o: nat)
    requires o in db.occs && db.occs[o].scan in db.scans && Tracks(db, done, ids, byLifecycle, targets)
    requires forall f :: f in ids ==> db.occs[o].finding != Some(f)
    ensures Tracks(db, done + {o}, ids, byLifecycle, targets)
  {
    forall f | f in ids
      ensures ScansIn(byLifecycle, f) == ScansSeen(db, done + {o}, f)
      ensures TargetsIn(targets, f) == TargetsSeen(db, done + {o}, f)
    {
      SeenGrows(db, done, o, f);
    }
  }

  lemma SeeLinked(db: Db, done: set<nat>, ids: set<string>, byLifecycle: map<string, map<ScanId, nat>>,
                  targets: map<string, set<Option<nat>>>, o: nat, g: string)
    requires o in db.occs && db.occs[o].scan in db.scans && Tracks(db, done, ids, byLifecycle, targets)
    requires db.occs[o].finding == Some(g) && g in ids
    ensures Tracks(db, done + {o}, ids, AddScan(byLifecycle, g, db.occs[o].scan, o),
                   targets[g := TargetsIn(targets, g) + {db.scans[db.occs[o].scan].target}])
  {
    var byLifecycle' := AddScan(byLifecycle, g, db.occs[o].scan, o);
    var targets' := targets[g := TargetsIn(targets, g) + {db.scans[db.occs[o].scan].target}];
    forall f | f in ids
      ensures ScansIn(byLifecycle', f) == ScansSeen(db, done + {o}, f)
      ensures TargetsIn(targets', f) == TargetsSeen(db, done + {o}, f)
    {
      SeenGrows(db, done, o, f);
      if f == g {
        assert ScansIn(byLifecycle', f) == ScansIn(byLifecycle, f) + {db.occs[o].scan};
      } else {
        assert ScansIn(byLifecycle', f) == ScansIn(byLifecycle, f);
      }
    }
  }

  lemma SeenGrows(db: Db, done: set<nat>, o: nat, f: string)
    requires o in db.occs && db.occs[o].scan in db.scans
    ensures ScansSeen(db, done + {o}, f) ==
            ScansSeen(db, done, f) + (if db.occs[o].finding == Some(f) then {db.occs[o].scan} else {})
    ensures TargetsSeen(db, done + {o}, f) ==
            TargetsSeen(db, done, f)
            + (if db.occs[o].finding == Some(f) then {db.scans[db.occs[o].scan].target} else {})
  {
  }

  lemma SeenAll(db: Db)
    requires Consistent(db)
    ensures forall f :: ScansSeen(db, db.occs.Keys, f) == Observers(db, f)
    ensures forall f, t :: t in TargetsSeen(db, db.occs.Keys, f) <==> Associated(db, f, t)
  {
    forall f, t
      ensures t in TargetsSeen(db, db.occs.Keys, f) <==> Associated(db, f, t)
    {
      if t in TargetsSeen(db, db.occs.Keys, f) {
        var o :| o in db.occs && db.occs[o].finding == Some(f) && db.scans[db.occs[o].scan].target == t;
        assert db.occs[o].scan in Observers(db, f);
      }
    }
  }

  ghost predicate ReadsClaims(scans: map<ScanId, Scan>, scanIds: seq<ScanId>, claims: map<ScanId, set<CoverageItem>>) {
    forall s, template, endpoint :: s in scanIds ==>
      s in scans &&
      (RepairClaims(scans[s], template, endpoint) <==>
       && AllowsClaimedCoverage(scans[s].origin) && scans[s].skipped == 0
       && s in claims && endpoint != "" && Pair(template, endpoint) in claims[s])
  }

  /** The list holds, in order, at least the complete scans in a scope of the finding. */
  ghost predicate ListsRelevant(db: Db, f: string, scanIds: seq<ScanId>) {
    exists relevant: set<ScanId> :: IsRelevant(db, f, scanIds, relevant)
  }

  ghost predicate IsRelevant(db: Db, f: string, scanIds: seq<ScanId>, relevant: set<ScanId>) {
    && relevant <= CompleteScans(db) && scanIds == Chronological(db.scans, relevant)
    && forall s :: s in CompleteScans(db) && Associated(db, f, db.scans[s].target) ==> s in relevant
  }

  function ScansIn(byLifecycle: map<string, map<ScanId, nat>>, f: string): set<ScanId> {
    if f in byLifecycle then byLifecycle[f].Keys else {}
  }

  function TargetsIn(targets: map<string, set<Option<nat>>>, f: string): set<Option<nat>> {
    if f in targets then targets[f] else {}
  }

  /** The maps answer for each listed scan what the tables say, so the two replays agree. */
  lemma CoveredAsInTables(db: Db, f: string, scanIds: seq<ScanId>, covered: ScanId -> bool)
    requires f in db.rows && ListsRelevant(db, f, scanIds)
    requires forall s :: s in scanIds && s in db.scans ==> (covered(s) <==> CoveredBy(db, s, f))
    ensures Replay(scanIds, (set s | s in scanIds && covered(s)), Observers(db, f)).history == TimelineOf(db, f)
  {
    var relevant :| IsRelevant(db, f, scanIds, relevant);
    var some := set s | s in scanIds && covered(s);
    ChronologicalOrder(db.scans, relevant);
    ReplayCongruence(scanIds, some, Observers(db, f), Covering(db, f), Observers(db, f));
    ReplayOfSubset(db.scans, CompleteScans(db), relevant, Covering(db, f), Observers(db, f));
  }
}
