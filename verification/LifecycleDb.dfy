/**
 The tables behind the finding lifecycle, and the statements that write them: the ingest
 upsert, the coverage update of a completed scan, and the deletion of a scan with its repair.
 Each transaction is one function from tables to tables.
 */
module LifecycleDb {
  import opened ScanStates
  import opened Wrappers
  import opened Timeline

  datatype CoverageOrigin = NodeTrace | ImportUntrusted | ImportTrusted

  /** One element of the stored coverage array: a pair, or something that does not decode as one. */
  datatype CoverageItem = Pair(template: string, endpoint: string) | Junk

  datatype Scan = Scan(createdAt: int, target: Option<nat>, state: ScanState, origin: CoverageOrigin,
                       coverage: Option<seq<CoverageItem>>, skipped: nat)

  /** An occurrence; its link to the finding is cleared when the lifecycle row goes away. */
  datatype Occurrence = Occurrence(scan: ScanId, finding: Option<string>)

  /** A lifecycle row, stored under its dedup key. */
  datatype Row = Row(template: string, endpoint: string, history: History)

  datatype Db = Db(scans: map<ScanId, Scan>, occs: map<nat, Occurrence>, nextOcc: nat, rows: map<string, Row>)

  /** The record-local part of one reported result. */
  datatype Observation = Observation(key: string, template: string, endpoint: string)

  const EMPTY := Db(map[], map[], 0, map[])

  // ---- Chronology ----

  predicate Older(scans: map<ScanId, Scan>, a: ScanId, b: ScanId)
    requires a in scans && b in scans
  {
    scans[a].createdAt < scans[b].createdAt || (scans[a].createdAt == scans[b].createdAt && a < b)
  }

  ghost predicate IsNewest(scans: map<ScanId, Scan>, some: set<ScanId>, n: ScanId)
    requires some <= scans.Keys
  {
    n in some && forall s :: s in some && s != n ==> Older(scans, s, n)
  }

  lemma {:induction false} NewestExists(scans: map<ScanId, Scan>, some: set<ScanId>)
    requires some != {} && some <= scans.Keys
    ensures exists n :: IsNewest(scans, some, n)
    decreases some
  {
    var n :| n in some;
    if some == {n} {
      assert IsNewest(scans, some, n);
    } else {
      NewestExists(scans, some - {n});
      var m :| IsNewest(scans, some - {n}, m);
      var top := if Older(scans, n, m) then m else n;
      forall s | s in some && s != top
        ensures Older(scans, s, top)
      {
        assert s == m || s == n || Older(scans, s, m);
      }
      assert IsNewest(scans, some, top);
    }
  }

  function Newest(scans: map<ScanId, Scan>, some: set<ScanId>): (n: ScanId)
    requires some != {} && some <= scans.Keys
    ensures IsNewest(scans, some, n)
  {
    NewestExists(scans, some);
    var n :| n in some && forall s :: s in some && s != n ==> Older(scans, s, n);
    n
  }

  /** The given scans, oldest first, by (created_at, id). */
  function Chronological(scans: map<ScanId, Scan>, some: set<ScanId>): seq<ScanId>
    requires some <= scans.Keys
    decreases some
  {
    if some == {} then []
    else var n := Newest(scans, some); Chronological(scans, some - {n}) + [n]
  }

  lemma {:induction false} ChronologicalOrder(scans: map<ScanId, Scan>, some: set<ScanId>)
    requires some <= scans.Keys
    ensures var order := Chronological(scans, some);
            && (forall s :: s in order <==> s in some)
            && (forall i, j :: 0 <= i < j < |order| ==> order[i] in some && order[j] in some && Older(scans, order[i], order[j]))
    decreases some
  {
    if some != {} {
      var n := Newest(scans, some);
      ChronologicalOrder(scans, some - {n});
      var init := Chronological(scans, some - {n});
      assert forall s :: s in init + [n] <==> s in init || s == n;
    }
  }

  lemma ChronologicalDistinct(scans: map<ScanId, Scan>, some: set<ScanId>)
    requires some <= scans.Keys
    ensures var order := Chronological(scans, some);
            forall i, j :: 0 <= i < j < |order| ==> order[i] != order[j]
  {
    ChronologicalOrder(scans, some);
  }

  /** Appending the newest scan appends it to the order. */
  lemma ChronologicalAppend(scans: map<ScanId, Scan>, some: set<ScanId>, n: ScanId)
    requires some <= scans.Keys && n in scans && n !in some
    requires forall s :: s in some ==> Older(scans, s, n)
    ensures Chronological(scans, some + {n}) == Chronological(scans, some) + [n]
  {
    assert Newest(scans, some + {n}) == n;
    assert some + {n} - {n} == some;
  }

  /** The order depends only on the creation times of the scans listed. */
  lemma {:induction false} ChronologicalCongruence(scans: map<ScanId, Scan>, scans': map<ScanId, Scan>, some: set<ScanId>)
    requires some <= scans.Keys && some <= scans'.Keys
    requires forall s :: s in some ==> scans[s].createdAt == scans'[s].createdAt
    ensures Chronological(scans, some) == Chronological(scans', some)
    decreases some
  {
    if some != {} {
      var n := Newest(scans, some);
      assert Newest(scans', some) == n;
      ChronologicalCongruence(scans, scans', some - {n});
    }
  }

  /** Taking one scan out of the set takes it out of the order. */
  lemma {:induction false} ChronologicalRemove(scans: map<ScanId, Scan>, some: set<ScanId>, x: ScanId)
    returns (before: seq<ScanId>, after: seq<ScanId>)
    requires some <= scans.Keys && x in some
    ensures Chronological(scans, some) == before + [x] + after
    ensures Chronological(scans, some - {x}) == before + after
    decreases some
  {
    var n := Newest(scans, some);
    if n == x {
      before, after := Chronological(scans, some - {x}), [];
    } else {
      before, after := ChronologicalRemove(scans, some - {n}, x);
      assert n in some - {x};
      var n' := Newest(scans, some - {x});
      assert n' in some;
      assert n' == n;
      assert some - {x} - {n} == some - {n} - {x};
      after := after + [n];
    }
  }

  // ---- Evidence ----

  /** The scans with a linked occurrence of the finding. */
  function Observers(db: Db, f: string): set<ScanId> {
    set o | o in db.occs && db.occs[o].finding == Some(f) :: db.occs[o].scan
  }

  /** Some scan of this target (or ad-hoc scope) has observed the finding. */
  predicate Associated(db: Db, f: string, target: Option<nat>) {
    exists s :: s in Observers(db, f) && s in db.scans && db.scans[s].target == target
  }

  predicate AllowsClaimedCoverage(origin: CoverageOrigin) {
    origin == NodeTrace || origin == ImportTrusted
  }

  /** What the SQL statements accept as a claim that the scan covered (template, endpoint). */
  predicate Claims(scan: Scan, template: string, endpoint: string) {
    && AllowsClaimedCoverage(scan.origin) && scan.skipped == 0
    && scan.coverage.Some? && endpoint != "" && Pair(template, endpoint) in scan.coverage.value
  }

  /** What the repair accepts: one undecodable element discards the array, blank fields are dropped. */
  predicate RepairClaims(scan: Scan, template: string, endpoint: string) {
    Claims(scan, template, endpoint) && template != "" && Junk !in scan.coverage.value
  }

  /** Coverage as a node trace records it: every element a pair with a template. */
  predicate WellFormedCoverage(scan: Scan) {
    scan.coverage.Some? ==>
      forall item :: item in scan.coverage.value ==> item.Pair? && item.template != ""
  }

  /** The coverage rule of the repair for one scan and one finding. */
  predicate CoveredBy(db: Db, s: ScanId, f: string)
    requires s in db.scans && f in db.rows
  {
    Associated(db, f, db.scans[s].target) &&
    (s in Observers(db, f) || RepairClaims(db.scans[s], db.rows[f].template, db.rows[f].endpoint))
  }

  function CompleteScans(db: Db): set<ScanId> {
    set s | s in db.scans && db.scans[s].state == Complete
  }

  function Covering(db: Db, f: string): set<ScanId>
    requires f in db.rows
  {
    set s | s in db.scans && CoveredBy(db, s, f)
  }

  /** The replay of everything the tables still hold about a finding. */
  function ReplayOf(db: Db, f: string): Replayed
    requires f in db.rows
  {
    Replay(Chronological(db.scans, CompleteScans(db)), Covering(db, f), Observers(db, f))
  }

  function TimelineOf(db: Db, f: string): History
    requires f in db.rows
  {
    ReplayOf(db, f).history
  }

  // ---- Ingest ----

  /** A stored pointer is absent, dangling, or older than the incoming scan. */
  predicate Behind(scans: map<ScanId, Scan>, pointer: Option<ScanId>, s: ScanId)
    requires s in scans
  {
    pointer.Some? && pointer.value in scans ==> Older(scans, pointer.value, s)
  }

  predicate Ahead(scans: map<ScanId, Scan>, pointer: Option<ScanId>, s: ScanId)
    requires s in scans
  {
    pointer.Some? && pointer.value in scans ==> Older(scans, s, pointer.value)
  }

  function Upsert(scans: map<ScanId, Scan>, h: History, s: ScanId): History
    requires s in scans
  {
    var newer := Behind(scans, h.last, s);
    History(if Ahead(scans, h.first, s) then Some(s) else h.first,
            if newer then Some(s) else h.last,
            h.covering,
            h.times + (if newer && Behind(scans, h.covering, s) && h.covering.Some?
                          && h.last != h.covering && h.last != Some(s) then 1 else 0))
  }

  function Ingest(db: Db, s: ScanId, obs: Observation): Db
    requires s in db.scans
  {
    var row :=
      if obs.key in db.rows then
        var prior := db.rows[obs.key];
        Row(prior.template, if Behind(db.scans, prior.history.last, s) then obs.endpoint else prior.endpoint,
            Upsert(db.scans, prior.history, s))
      else
        Row(obs.template, obs.endpoint, History(Some(s), Some(s), None, 0));
    db.(occs := db.occs[db.nextOcc := Occurrence(s, Some(obs.key))], nextOcc := db.nextOcc + 1,
        rows := db.rows[obs.key := row])
  }

  function IngestAll(db: Db, s: ScanId, obs: seq<Observation>): (db': Db)
    requires s in db.scans
    ensures db'.scans == db.scans
  {
    if obs == [] then db else Ingest(IngestAll(db, s, obs[..|obs| - 1]), s, obs[|obs| - 1])
  }

  // ---- Completion ----

  predicate Candidate(db: Db, s: ScanId, f: string, trusted: bool)
    requires s in db.scans && f in db.rows
  {
    s in Observers(db, f) || (trusted && Claims(db.scans[s], db.rows[f].template, db.rows[f].endpoint))
  }

  /** The row whose covering pointer a completed scan moves. */
  predicate Advances(db: Db, s: ScanId, f: string, trusted: bool)
    requires s in db.scans && f in db.rows
  {
    var covering := db.rows[f].history.covering;
    && Candidate(db, s, f, trusted) && Associated(db, f, db.scans[s].target)
    && (covering.None? || (covering.value in db.scans && Older(db.scans, covering.value, s)))
  }

  function Cover(db: Db, s: ScanId, trusted: bool): Db
    requires s in db.scans
  {
    db.(rows := map f | f in db.rows ::
                  if Advances(db, s, f, trusted) then
                    db.rows[f].(history := db.rows[f].history.(covering := Some(s)))
                  else db.rows[f])
  }

  function SetState(db: Db, s: ScanId, state: ScanState): Db
    requires s in db.scans
  {
    db.(scans := db.scans[s := db.scans[s].(state := state)])
  }

  /** Completion never overwrites a cancelled scan; any other state becomes complete and covers. */
  function MarkComplete(db: Db, s: ScanId): Db {
    if s !in db.scans || db.scans[s].state == Cancelled then db
    else Cover(SetState(db, s, Complete), s, true)
  }

  // ---- Deletion ----

  predicate PointsTo(h: History, s: ScanId) {
    h.first == Some(s) || h.last == Some(s) || h.covering == Some(s)
  }

  /** The findings whose history deleting the scan may change. */
  function Affected(db: Db, s: ScanId): set<string>
    requires s in db.scans
  {
    set f | f in db.rows &&
      ((Claims(db.scans[s], db.rows[f].template, db.rows[f].endpoint) && Associated(db, f, db.scans[s].target))
       || s in Observers(db, f) || PointsTo(db.rows[f].history, s))
  }

  function NullOut(h: History, s: ScanId): History {
    History(if h.first == Some(s) then None else h.first, if h.last == Some(s) then None else h.last,
            if h.covering == Some(s) then None else h.covering, h.times)
  }

  /** The scan row goes, its occurrences with it, and pointers to it become null. */
  function RemoveScan(db: Db, s: ScanId): Db {
    db.(scans := db.scans - {s},
        occs := map o | o in db.occs && db.occs[o].scan != s :: db.occs[o],
        rows := map f | f in db.rows :: db.rows[f].(history := NullOut(db.rows[f].history, s)))
  }

  predicate Survives(db: Db, ids: set<string>, f: string)
    requires f in db.rows
  {
    f in ids ==> TimelineOf(db, f).last.Some?
  }

  /** Rebuilds the given rows from the surviving tables; a row nothing supports is dropped and unlinked. */
  function Repair(db: Db, ids: set<string>): Db {
    db.(rows := map f | f in db.rows && Survives(db, ids, f) ::
                  if f in ids then db.rows[f].(history := TimelineOf(db, f)) else db.rows[f],
        occs := map o | o in db.occs ::
                  if db.occs[o].finding.Some? && db.occs[o].finding.value in db.rows
                     && !Survives(db, ids, db.occs[o].finding.value)
                  then db.occs[o].(finding := None) else db.occs[o])
  }

  datatype DeleteError = NotFound | Conflict

  function DeleteScan(db: Db, s: ScanId): Result<Db, DeleteError> {
    if s !in db.scans then Err(NotFound)
    else if InFlight(db.scans[s].state) then Err(Conflict)
    else Ok(Repair(RemoveScan(db, s), Affected(db, s)))
  }

  // ---- Referential integrity ----

  /** What the foreign keys and the occurrence sequence guarantee. */
  ghost predicate Consistent(db: Db) {
    && (forall o :: o in db.occs ==> o < db.nextOcc && db.occs[o].scan in db.scans
                                     && (db.occs[o].finding.Some? ==> db.occs[o].finding.value in db.rows))
    && (forall f :: f in db.rows ==> PointersExist(db.scans, db.rows[f].history))
  }

  ghost predicate PointersExist(scans: map<ScanId, Scan>, h: History) {
    && (h.first.Some? ==> h.first.value in scans) && (h.last.Some? ==> h.last.value in scans)
    && (h.covering.Some? ==> h.covering.value in scans)
  }

  lemma ObserversExist(db: Db, f: string)
    requires Consistent(db)
    ensures Observers(db, f) <= db.scans.Keys
    ensures f !in db.rows ==> Observers(db, f) == {}
  {
  }

  lemma ObserversAfterIngest(db: Db, s: ScanId, obs: Observation, f: string)
    requires s in db.scans && Consistent(db)
    ensures Observers(Ingest(db, s, obs), f) == Observers(db, f) + (if f == obs.key then {s} else {})
  {
    var db' := Ingest(db, s, obs);
    assert db'.occs[db.nextOcc] == Occurrence(s, Some(obs.key));
    forall o | o in db.occs
      ensures o in db'.occs && db'.occs[o] == db.occs[o]
    {
    }
    forall x | x in Observers(db, f)
      ensures x in Observers(db', f)
    {
      var o :| o in db.occs && db.occs[o].finding == Some(f) && db.occs[o].scan == x;
      assert db'.occs[o] == db.occs[o];
    }
  }

  lemma IngestKeepsConsistent(db: Db, s: ScanId, obs: Observation)
    requires s in db.scans && Consistent(db)
    ensures Consistent(Ingest(db, s, obs))
  {
  }

  lemma CompleteKeepsConsistent(db: Db, s: ScanId)
    requires Consistent(db)
    ensures Consistent(MarkComplete(db, s))
    ensures forall f :: Observers(MarkComplete(db, s), f) == Observers(db, f)
  {
  }

  lemma ObserversAfterRemove(db: Db, s: ScanId, f: string)
    ensures Observers(RemoveScan(db, s), f) == Observers(db, f) - {s}
  {
    var db' := RemoveScan(db, s);
    forall x | x in Observers(db, f) && x != s
      ensures x in Observers(db', f)
    {
      var o :| o in db.occs && db.occs[o].finding == Some(f) && db.occs[o].scan == x;
      assert o in db'.occs && db'.occs[o] == db.occs[o];
    }
  }

  lemma ObserversAfterRepair(db: Db, ids: set<string>, f: string)
    ensures Observers(Repair(db, ids), f) ==
            (if f in db.rows && !Survives(db, ids, f) then {} else Observers(db, f))
  {
    var db' := Repair(db, ids);
    forall x | x in Observers(db, f) && (f in db.rows ==> Survives(db, ids, f))
      ensures x in Observers(db', f)
    {
      var o :| o in db.occs && db.occs[o].finding == Some(f) && db.occs[o].scan == x;
      assert o in db'.occs && db'.occs[o] == db.occs[o];
    }
  }

  lemma TimelinePointersExist(db: Db, f: string)
    requires f in db.rows
    ensures PointersExist(db.scans, TimelineOf(db, f))
  {
    ReplayShape(Chronological(db.scans, CompleteScans(db)), Covering(db, f), Observers(db, f));
  }

  lemma RemoveKeepsConsistent(db: Db, s: ScanId)
    requires Consistent(db)
    ensures Consistent(RemoveScan(db, s))
  {
  }

  lemma RepairKeepsConsistent(db: Db, ids: set<string>)
    requires Consistent(db)
    ensures Consistent(Repair(db, ids))
  {
    var db' := Repair(db, ids);
    forall f | f in db'.rows
      ensures PointersExist(db'.scans, db'.rows[f].history)
    {
      TimelinePointersExist(db, f);
    }
    forall o | o in db'.occs
      ensures o < db'.nextOcc && db'.occs[o].scan in db'.scans
      ensures db'.occs[o].finding.Some? ==> db'.occs[o].finding.value in db'.rows
    {
      assert db.occs[o].scan in db.scans;
    }
  }

  lemma DeleteKeepsConsistent(db: Db, s: ScanId)
    requires Consistent(db) && DeleteScan(db, s).Ok?
    ensures Consistent(DeleteScan(db, s).value)
  {
    RemoveKeepsConsistent(db, s);
    RepairKeepsConsistent(RemoveScan(db, s), Affected(db, s));
  }
}
