/**
 The incremental lifecycle agrees with the replay: over any run of scans ingested and completed
 in order, mixed with deletions and with scans that end without results, every row holds exactly
 the pointers and the counter that a replay of the surviving tables gives.
 */
module LifecycleRuns {
  import opened ScanStates
  import opened Wrappers
  import opened Timeline
  import opened TimelineGaps
  import opened LifecycleDb
  import opened LifecycleDelete

  /** One scan's whole life: created, its results ingested, marked complete. */
  function RunScan(db: Db, s: ScanId, scan: Scan, obs: seq<Observation>): Db {
    MarkComplete(IngestAll(Insert(db, s, scan), s, obs), s)
  }

  function Insert(db: Db, s: ScanId, scan: Scan): Db {
    db.(scans := db.scans[s := scan.(state := Running)])
  }

  /** The same life ended by a failure after part of the results went in. */
  function FailScan(db: Db, s: ScanId, scan: Scan, obs: seq<Observation>): Db {
    SetState(IngestAll(Insert(db, s, scan), s, obs), s, Failed)
  }

  ghost function Keys(obs: seq<Observation>): set<string> {
    set o | o in obs :: o.key
  }

  /** The row says what the replay says. */
  ghost predicate InSync(db: Db, f: string)
    requires f in db.rows
  {
    db.rows[f].history == TimelineOf(db, f) && db.rows[f].history.last.Some?
  }

  ghost predicate Sync(db: Db) {
    && Consistent(db)
    && (forall s :: s in db.scans ==> WellFormedCoverage(db.scans[s]))
    && (forall f :: f in db.rows ==> Observers(db, f) <= CompleteScans(db) && db.rows[f].template != "")
    && (forall f :: f in db.rows ==> InSync(db, f))
  }

  /** Every row points at complete scans only. */
  ghost predicate Settled(db: Db) {
    Consistent(db) && forall f :: f in db.rows ==> PointsAtComplete(db, f)
  }

  ghost predicate PointsAtComplete(db: Db, f: string)
    requires f in db.rows
  {
    var h := db.rows[f].history;
    && h.first.Some? && h.first.value in CompleteScans(db) && h.last.Some? && h.last.value in CompleteScans(db)
    && h.covering.Some? && h.covering.value in CompleteScans(db)
  }

  // ---- What a run may assume ----

  /** The scan id is new and the scan comes after every complete one. */
  ghost predicate InOrder(db: Db, s: ScanId, createdAt: int) {
    s !in db.scans &&
    forall c :: c in CompleteScans(db) ==>
      db.scans[c].createdAt < createdAt || (db.scans[c].createdAt == createdAt && c < s)
  }

  /** The scan comes after the one the finding was first seen in. */
  ghost predicate AfterFirst(db: Db, f: string, c: ScanId)
    requires f in db.rows && c in db.scans
  {
    var first := db.rows[f].history.first;
    first.Some? && first.value in db.scans && Older(db.scans, first.value, c)
  }

  /** No complete scan between these two saw the finding. */
  ghost predicate SameGap(db: Db, f: string, c: ScanId, x: ScanId)
    requires c in db.scans && x in db.scans
  {
    forall o :: o in CompleteScans(db) && o in Observers(db, f) ==>
                  && !(Older(db.scans, c, o) && Older(db.scans, o, x))
                  && !(Older(db.scans, x, o) && Older(db.scans, o, c))
  }

  /** A complete scan that covers the finding without seeing it. */
  ghost predicate CoversAbsent(db: Db, f: string, x: ScanId)
    requires f in db.rows
  {
    x in CompleteScans(db) && x in Covering(db, f) && x !in Observers(db, f)
  }

  /** Between the same two observations as `c`, some scan already covers the finding as absent. */
  ghost predicate GapIsCovered(db: Db, f: string, c: ScanId)
    requires f in db.rows && c in db.scans
  {
    exists x :: CoversAbsent(db, f, x) && SameGap(db, f, c, x)
  }

  /**
   A target newly associated with a finding claims nothing the replay did not know: each of its claims is
   from before the finding was first seen, or falls into a gap that is covered as absent anyway.
   */
  ghost predicate ScopeIsHarmless(db: Db, target: Option<nat>, f: string)
    requires f in db.rows
  {
    Associated(db, f, target) ||
    forall c :: ClaimsFor(db, target, f, c) && AfterFirst(db, f, c) ==> GapIsCovered(db, f, c)
  }

  /** A complete scan of the target that claims to have covered the finding. */
  ghost predicate ClaimsFor(db: Db, target: Option<nat>, f: string, c: ScanId)
    requires f in db.rows
  {
    && c in CompleteScans(db) && db.scans[c].target == target
    && Claims(db.scans[c], db.rows[f].template, db.rows[f].endpoint)
  }

  /** Nuclei results name a template, and a finding keeps its endpoint. */
  ghost predicate FitsRow(db: Db, o: Observation) {
    o.template != "" && (o.key in db.rows ==> o.endpoint == db.rows[o.key].endpoint)
  }

  ghost predicate CanIngest(db: Db, s: ScanId, scan: Scan, obs: seq<Observation>) {
    InOrder(db, s, scan.createdAt) && forall i :: 0 <= i < |obs| ==> FitsRow(db, obs[i])
  }

  ghost predicate ScopesAreHarmless(db: Db, scan: Scan, obs: seq<Observation>) {
    forall i :: 0 <= i < |obs| && obs[i].key in db.rows ==> ScopeIsHarmless(db, scan.target, obs[i].key)
  }

  ghost predicate CanRun(db: Db, s: ScanId, scan: Scan, obs: seq<Observation>) {
    CanIngest(db, s, scan, obs) && ScopesAreHarmless(db, scan, obs) && WellFormedCoverage(scan)
  }

  // ---- Ingesting in order ----

  lemma PointersAreComplete(db: Db, f: string)
    requires f in db.rows && InSync(db, f)
    ensures PointsAtComplete(db, f)
  {
    ChronologicalOrder(db.scans, CompleteScans(db));
    ReplayShape(Chronological(db.scans, CompleteScans(db)), Covering(db, f), Observers(db, f));
  }

  lemma SyncIsSettled(db: Db)
    requires Sync(db)
    ensures Settled(db)
  {
    forall f | f in db.rows
      ensures PointsAtComplete(db, f)
    {
      PointersAreComplete(db, f);
    }
  }

  /** What ingesting a newest scan's results leaves in one row. */
  ghost predicate RowDuring(db: Db, s: ScanId, obs: seq<Observation>, f: string, db': Db) {
    && (f in db'.rows <==> f in db.rows || f in Keys(obs))
    && (f in db.rows ==>
          var h := db.rows[f].history;
          db'.rows[f] == if f !in Keys(obs) then db.rows[f]
                         else db.rows[f].(history := History(h.first, Some(s), h.covering,
                                          h.times + (if h.last != h.covering then 1 else 0))))
    && (f !in db.rows && f in Keys(obs) ==>
          db'.rows[f].history == History(Some(s), Some(s), None, 0) && db'.rows[f].template != "")
    && Observers(db', f) == Observers(db, f) + (if f in Keys(obs) then {s} else {})
  }

  lemma KeysAppend(obs: seq<Observation>, o: Observation)
    ensures Keys(obs + [o]) == Keys(obs) + {o.key}
  {
    assert forall x :: x in obs + [o] <==> x in obs || x == o;
    assert o in obs + [o];
  }

  lemma RowAfterOne(db: Db, s: ScanId, scan: Scan, obs: seq<Observation>, o: Observation, db1: Db, f: string)
    requires Settled(db) && InOrder(db, s, scan.createdAt) && FitsRow(db, o)
    requires Consistent(db1) && db1.scans == Insert(db, s, scan).scans
    requires RowDuring(db, s, obs, f, db1)
    ensures RowDuring(db, s, obs + [o], f, Ingest(db1, s, o))
  {
    KeysAppend(obs, o);
    ObserversAfterIngest(db1, s, o, f);
  }

  lemma {:induction false} IngestInOrder(db: Db, s: ScanId, scan: Scan, obs: seq<Observation>, f: string)
    requires Settled(db) && CanIngest(db, s, scan, obs)
    ensures var db' := IngestAll(Insert(db, s, scan), s, obs);
            Consistent(db') && RowDuring(db, s, obs, f, db')
  {
    if obs == [] {
      assert Observers(Insert(db, s, scan), f) == Observers(db, f);
    } else {
      var init, o := obs[..|obs| - 1], obs[|obs| - 1];
      IngestInOrder(db, s, scan, init, f);
      var db1 := IngestAll(Insert(db, s, scan), s, init);
      RowAfterOne(db, s, scan, init, o, db1, f);
      IngestKeepsConsistent(db1, s, o);
      assert obs == init + [o];
    }
  }

  // ---- Completing in order ----

  /** What the whole run of a newest scan leaves in one row. */
  ghost predicate RowAfter(db: Db, s: ScanId, scan: Scan, obs: seq<Observation>, f: string, db': Db) {
    && (f in db'.rows <==> f in db.rows || f in Keys(obs))
    && Observers(db', f) == Observers(db, f) + (if f in Keys(obs) then {s} else {})
    && (f in db.rows ==>
          var h := db.rows[f].history;
          var covers := Associated(db, f, scan.target) && Claims(scan, db.rows[f].template, db.rows[f].endpoint);
          db'.rows[f] == db.rows[f].(history :=
            if f in Keys(obs) then
              History(h.first, Some(s), Some(s), h.times + (if h.last != h.covering then 1 else 0))
            else if covers then h.(covering := Some(s))
            else h))
    && (f !in db.rows && f in Keys(obs) ==>
          db'.rows[f].history == History(Some(s), Some(s), Some(s), 0) && db'.rows[f].template != "")
  }

  lemma AssociatedDuring(db: Db, s: ScanId, scan: Scan, db1: Db, f: string, t: Option<nat>)
    requires Consistent(db) && s !in db.scans && db1.scans == Insert(db, s, scan).scans
    requires s !in Observers(db, f)
    ensures Observers(db1, f) == Observers(db, f) ==> (Associated(db1, f, t) <==> Associated(db, f, t))
    ensures Observers(db1, f) == Observers(db, f) + {s} ==>
              (Associated(db1, f, t) <==> Associated(db, f, t) || t == scan.target)
  {
    ObserversExist(db, f);
  }

  lemma RunRow(db: Db, s: ScanId, scan: Scan, obs: seq<Observation>, f: string)
    requires Settled(db) && CanIngest(db, s, scan, obs)
    ensures var db' := RunScan(db, s, scan, obs);
            && Consistent(db') && db'.scans == db.scans[s := scan.(state := Complete)]
            && RowAfter(db, s, scan, obs, f, db')
  {
    IngestInOrder(db, s, scan, obs, f);
    var db1 := IngestAll(Insert(db, s, scan), s, obs);
    CompleteKeepsConsistent(db1, s);
    ObserversExist(db, f);
    var db2 := SetState(db1, s, Complete);
    assert Observers(db2, f) == Observers(db1, f);
    if f in db1.rows {
      AdvancesInOrder(db, s, scan, obs, f, db1);
    }
  }

  lemma AdvancesInOrder(db: Db, s: ScanId, scan: Scan, obs: seq<Observation>, f: string, db1: Db)
    requires Settled(db) && InOrder(db, s, scan.createdAt)
    requires db1.scans == Insert(db, s, scan).scans && RowDuring(db, s, obs, f, db1) && f in db1.rows
    ensures Advances(SetState(db1, s, Complete), s, f, true) <==>
            f in Keys(obs) ||
            (Claims(scan, db1.rows[f].template, db1.rows[f].endpoint) && Associated(db, f, scan.target))
  {
    var db2 := SetState(db1, s, Complete);
    ObserversExist(db, f);
    assert Observers(db2, f) == Observers(db1, f);
    assert Associated(db2, f, scan.target) <==> Associated(db1, f, scan.target);
    AssociatedDuring(db, s, scan, db1, f, scan.target);
  }

  // ---- The replay of the run ----

  /** The order after the run is the old order and then the new scan. */
  lemma OrderAfterRun(db: Db, s: ScanId, scan: Scan, db': Db)
    requires InOrder(db, s, scan.createdAt) && db'.scans == db.scans[s := scan.(state := Complete)]
    ensures CompleteScans(db') == CompleteScans(db) + {s}
    ensures Chronological(db'.scans, CompleteScans(db')) == Chronological(db.scans, CompleteScans(db)) + [s]
  {
    ChronologicalCongruence(db.scans, db'.scans, CompleteScans(db));
    ChronologicalAppend(db'.scans, CompleteScans(db), s);
  }

  /** The row keeps its template and endpoint, and at most the new scan joins its observers. */
  ghost predicate SameIdentity(db: Db, s: ScanId, scan: Scan, f: string, seen: bool, db': Db) {
    && s !in db.scans && f in db.rows && f in db'.rows
    && db'.scans == db.scans[s := scan.(state := Complete)]
    && db'.rows[f].template == db.rows[f].template && db'.rows[f].endpoint == db.rows[f].endpoint
    && Observers(db', f) == Observers(db, f) + (if seen then {s} else {})
    && Observers(db, f) <= db.scans.Keys
  }

  lemma AssociatedDuringRun(db: Db, s: ScanId, scan: Scan, f: string, seen: bool, db': Db, t: Option<nat>)
    requires SameIdentity(db, s, scan, f, seen, db')
    ensures Associated(db', f, t) <==> Associated(db, f, t) || (seen && t == scan.target)
  {
    assert db'.scans[s].target == scan.target;
    if Associated(db, f, t) {
      var o :| o in Observers(db, f) && o in db.scans && db.scans[o].target == t;
      assert o in Observers(db', f) && db'.scans[o] == db.scans[o];
    }
    if seen && t == scan.target {
      assert s in Observers(db', f);
    }
    if Associated(db', f, t) {
      var o :| o in Observers(db', f) && o in db'.scans && db'.scans[o].target == t;
      assert o == s || (o in Observers(db, f) && db.scans[o] == db'.scans[o]);
    }
  }

  /** An earlier scan newly covers the finding only through a claim in a newly associated target. */
  lemma CoveringDuringRun(db: Db, s: ScanId, scan: Scan, f: string, seen: bool, db': Db, c: ScanId)
    requires SameIdentity(db, s, scan, f, seen, db') && c in db.scans
    ensures c in Observers(db', f) <==> c in Observers(db, f)
    ensures c in Covering(db, f) ==> c in Covering(db', f)
    ensures c in Covering(db', f) && c !in Covering(db, f) ==>
              && seen && db.scans[c].target == scan.target && !Associated(db, f, scan.target)
              && c !in Observers(db, f) && Claims(db.scans[c], db.rows[f].template, db.rows[f].endpoint)
  {
    AssociatedDuringRun(db, s, scan, f, seen, db', db.scans[c].target);
    if c in Observers(db, f) {
      ObserverCovers(db, c, f);
    }
  }

  /** The complete scans before the run, with the coverage of the finding before and after it. */
  ghost function Earlier(db: Db, f: string, db': Db): Lists
    requires f in db.rows && f in db'.rows
  {
    Lists(Chronological(db.scans, CompleteScans(db)), Covering(db, f), Covering(db', f), Observers(db, f))
  }

  lemma EarlierIsValid(db: Db, s: ScanId, scan: Scan, f: string, seen: bool, db': Db)
    requires SameIdentity(db, s, scan, f, seen, db')
    ensures Earlier(db, f, db').Valid()
  {
    var l := Earlier(db, f, db');
    ChronologicalOrder(db.scans, CompleteScans(db));
    forall i | 0 <= i < |l.scans|
      ensures l.scans[i] in l.covered ==> l.scans[i] in l.more
      ensures l.scans[i] in l.present ==> l.scans[i] in l.covered
    {
      CoveringDuringRun(db, s, scan, f, seen, db', l.scans[i]);
      if l.scans[i] in l.present {
        ObserverCovers(db, l.scans[i], f);
      }
    }
  }

  /** In the list, older means earlier. */
  lemma OlderIsEarlier(db: Db, order: seq<ScanId>, a: nat, b: nat)
    requires order == Chronological(db.scans, CompleteScans(db)) && a < |order| && b < |order|
    ensures order[a] in db.scans && order[b] in db.scans
    ensures Older(db.scans, order[a], order[b]) <==> a < b
  {
    ChronologicalOrder(db.scans, CompleteScans(db));
    assert b < a ==> Older(db.scans, order[b], order[a]);
  }

  /** The extra absences are the claims of the newly associated target. */
  lemma ExtraIsClaim(db: Db, s: ScanId, scan: Scan, f: string, db': Db, i: nat)
    requires Sync(db) && SameIdentity(db, s, scan, f, true, db') && i < |Earlier(db, f, db').scans|
    ensures var l := Earlier(db, f, db');
            l.Extra(i) <==> !Associated(db, f, scan.target) && ClaimsFor(db, scan.target, f, l.scans[i])
  {
    var c := Earlier(db, f, db').scans[i];
    ChronologicalOrder(db.scans, CompleteScans(db));
    assert c in CompleteScans(db);
    CoveringDuringRun(db, s, scan, f, true, db', c);
    AssociatedDuringRun(db, s, scan, f, true, db', db.scans[c].target);
  }

  lemma SeenBeforeIsAfterFirst(db: Db, f: string, db': Db, i: nat)
    requires f in db.rows && f in db'.rows && InSync(db, f) && i < |Earlier(db, f, db').scans|
    requires Earlier(db, f, db').Valid()
    ensures Earlier(db, f, db').scans[i] in db.scans
    ensures Earlier(db, f, db').SeenBefore(i) <==> AfterFirst(db, f, Earlier(db, f, db').scans[i])
  {
    var l := Earlier(db, f, db');
    ReplayShape(l.scans, l.covered, l.present);
    var n := FirstIsEarliest(l.scans, l.covered, l.present);
    OlderIsEarlier(db, l.scans, n, i);
    assert l.Present(n);
  }

  lemma GapsAgree(db: Db, f: string, db': Db, i: nat, k: nat)
    requires f in db.rows && f in db'.rows
    requires i < |Earlier(db, f, db').scans| && k < |Earlier(db, f, db').scans|
    ensures var l := Earlier(db, f, db');
            && l.scans[i] in db.scans && l.scans[k] in db.scans
            && (l.SameGap(i, k) <==> SameGap(db, f, l.scans[i], l.scans[k]))
  {
    var l := Earlier(db, f, db');
    ChronologicalOrder(db.scans, CompleteScans(db));
    forall m: nat | m < |l.scans|
      ensures Older(db.scans, l.scans[i], l.scans[m]) <==> i < m
      ensures Older(db.scans, l.scans[m], l.scans[k]) <==> m < k
      ensures Older(db.scans, l.scans[k], l.scans[m]) <==> k < m
      ensures Older(db.scans, l.scans[m], l.scans[i]) <==> m < i
    {
      OlderIsEarlier(db, l.scans, i, m);
      OlderIsEarlier(db, l.scans, m, k);
      OlderIsEarlier(db, l.scans, k, m);
      OlderIsEarlier(db, l.scans, m, i);
    }
    if SameGap(db, f, l.scans[i], l.scans[k]) {
      forall m | (i < m < k || k < m < i)
        ensures !l.Present(m)
      {
        assert l.scans[m] in CompleteScans(db);
      }
    }
    if l.SameGap(i, k) {
      forall o | o in CompleteScans(db) && o in Observers(db, f)
        ensures !(Older(db.scans, l.scans[i], o) && Older(db.scans, o, l.scans[k]))
        ensures !(Older(db.scans, l.scans[k], o) && Older(db.scans, o, l.scans[i]))
      {
        var m :| 0 <= m < |l.scans| && l.scans[m] == o;
        assert l.Present(m);
      }
    }
  }

  lemma FilledIsCovered(db: Db, f: string, db': Db, i: nat)
    requires f in db.rows && f in db'.rows && i < |Earlier(db, f, db').scans|
    ensures Earlier(db, f, db').scans[i] in db.scans
    ensures Earlier(db, f, db').Filled(i) <==> GapIsCovered(db, f, Earlier(db, f, db').scans[i])
  {
    var l := Earlier(db, f, db');
    ChronologicalOrder(db.scans, CompleteScans(db));
    assert l.scans[i] in CompleteScans(db);
    if l.Filled(i) {
      var k :| l.Absent(k) && l.SameGap(i, k);
      GapsAgree(db, f, db', i, k);
      assert CoversAbsent(db, f, l.scans[k]);
    }
    if GapIsCovered(db, f, l.scans[i]) {
      var x :| CoversAbsent(db, f, x) && SameGap(db, f, l.scans[i], x);
      var k :| 0 <= k < |l.scans| && l.scans[k] == x;
      GapsAgree(db, f, db', i, k);
      assert l.Absent(k);
    }
  }

  /** The condition on the tables is the one on the list. */
  lemma HarmlessIsFilled(db: Db, s: ScanId, scan: Scan, f: string, db': Db)
    requires Sync(db) && SameIdentity(db, s, scan, f, true, db') && Earlier(db, f, db').Valid()
    ensures ScopeIsHarmless(db, scan.target, f) <==> forall i :: !Earlier(db, f, db').Unfilled(i)
  {
    var l := Earlier(db, f, db');
    ChronologicalOrder(db.scans, CompleteScans(db));
    assert InSync(db, f);
    forall i: nat | i < |l.scans|
      ensures l.scans[i] in db.scans
      ensures l.Unfilled(i) <==>
              && !Associated(db, f, scan.target) && ClaimsFor(db, scan.target, f, l.scans[i])
              && AfterFirst(db, f, l.scans[i]) && !GapIsCovered(db, f, l.scans[i])
    {
      ExtraIsClaim(db, s, scan, f, db', i);
      SeenBeforeIsAfterFirst(db, f, db', i);
      FilledIsCovered(db, f, db', i);
    }
    if forall i :: !l.Unfilled(i) {
      forall c | ClaimsFor(db, scan.target, f, c) && AfterFirst(db, f, c) && !Associated(db, f, scan.target)
        ensures GapIsCovered(db, f, c)
      {
        var i :| 0 <= i < |l.scans| && l.scans[i] == c;
        assert !l.Unfilled(i);
      }
    }
  }

  /** What the earlier scans replay to when the new one is added: the same pointers, and perhaps more absences. */
  lemma EarlierScansReplay(db: Db, s: ScanId, scan: Scan, f: string, seen: bool, db': Db)
    requires Sync(db) && SameIdentity(db, s, scan, f, seen, db')
    ensures var order := Chronological(db.scans, CompleteScans(db));
            var was, now := ReplayOf(db, f), Replay(order, Covering(db', f), Observers(db', f));
            && now.history.first == was.history.first && now.history.last == was.history.last
            && now.everPresent == was.everPresent
            && (!seen ==> now == was)
            && (seen ==> Ended(was) <= Ended(now))
            && (seen ==> (Ended(was) == Ended(now) <==> ScopeIsHarmless(db, scan.target, f)))
  {
    var l := Earlier(db, f, db');
    EarlierIsValid(db, s, scan, f, seen, db');
    ChronologicalOrder(db.scans, CompleteScans(db));
    forall c | c in l.scans
      ensures c in Observers(db', f) <==> c in Observers(db, f)
      ensures !seen ==> (c in Covering(db', f) <==> c in Covering(db, f))
    {
      CoveringDuringRun(db, s, scan, f, seen, db', c);
    }
    ReplayCongruence(l.scans, Covering(db', f), Observers(db, f), Covering(db', f), Observers(db', f));
    ExtraAbsencesKeepPointers(l);
    ExtraAbsencesCountIff(l);
    if seen {
      HarmlessIsFilled(db, s, scan, f, db');
    } else {
      ReplayCongruence(l.scans, Covering(db, f), Observers(db, f), Covering(db', f), Observers(db', f));
    }
  }

  /** The first covered scan that saw the finding is where the replay's first pointer points. */
  lemma {:induction false} FirstIsEarliest(scans: seq<ScanId>, covered: set<ScanId>, present: set<ScanId>) returns (n: nat)
    requires Replay(scans, covered, present).everPresent
    ensures n < |scans| && Replay(scans, covered, present).history.first == Some(scans[n])
    ensures scans[n] in covered && scans[n] in present
    ensures forall i :: 0 <= i < n ==> scans[i] !in covered || scans[i] !in present
  {
    var init := scans[..|scans| - 1];
    ReplayShape(init, covered, present);
    if Replay(init, covered, present).everPresent {
      n := FirstIsEarliest(init, covered, present);
    } else {
      n := |init|;
      assert forall i :: 0 <= i < n ==> scans[i] in init;
    }
  }

  lemma NewFindingReplaysToOneScan(db: Db, s: ScanId, scan: Scan, obs: seq<Observation>, f: string, db': Db)
    requires Sync(db) && InOrder(db, s, scan.createdAt) && f !in db.rows && f in Keys(obs)
    requires db'.scans == db.scans[s := scan.(state := Complete)] && RowAfter(db, s, scan, obs, f, db')
    ensures TimelineOf(db', f) == History(Some(s), Some(s), Some(s), 0)
  {
    var order := Chronological(db.scans, CompleteScans(db));
    ChronologicalOrder(db.scans, CompleteScans(db));
    ObserversExist(db, f);
    assert Observers(db', f) == {s};
    EarlyAbsencesDoNotMatter(order, {}, Covering(db', f) - (Covering(db', f) - (set c | c in order && c in Covering(db', f))),
                             {s}, |order|);
    var some := set c | c in order && c in Covering(db', f);
    assert Covering(db', f) - (Covering(db', f) - some) == some;
    ReplayCongruence(order, Covering(db', f), {s}, some, {s});
    OrderAfterRun(db, s, scan, db');
    ReplayAppend(order, s, Covering(db', f), {s});
    ObserverCovers(db', s, f);
  }

  /**
   The replay after the run, in terms of the row before. Only a late association can make it differ from
   the row: it then counts mitigation cycles the row never saw, and never fewer.
   */
  lemma ReplayOfRun(db: Db, s: ScanId, scan: Scan, f: string, seen: bool, db': Db)
    requires Sync(db) && SameIdentity(db, s, scan, f, seen, db') && InOrder(db, s, scan.createdAt)
    ensures var h, t := db.rows[f].history, TimelineOf(db', f);
            var counted := h.times + (if h.last != h.covering then 1 else 0);
            && (seen ==> t == History(h.first, Some(s), Some(s), t.times) && counted <= t.times)
            && (seen ==> (t.times == counted <==> ScopeIsHarmless(db, scan.target, f)))
            && (!seen ==>
                  t == if Associated(db, f, scan.target) && RepairClaims(scan, db.rows[f].template, db.rows[f].endpoint)
                       then h.(covering := Some(s)) else h)
  {
    var order := Chronological(db.scans, CompleteScans(db));
    EarlierScansReplay(db, s, scan, f, seen, db');
    OrderAfterRun(db, s, scan, db');
    ReplayAppend(order, s, Covering(db', f), Observers(db', f));
    assert InSync(db, f);
    ReplayShape(order, Covering(db, f), Observers(db, f));
    ChronologicalDistinct(db.scans, CompleteScans(db));
    ReplayPresence(order, Covering(db, f), Observers(db, f));
    AssociatedDuringRun(db, s, scan, f, seen, db', scan.target);
  }

  /**
   When a row stays in step: an observed one exactly when the scope is harmless, any other one exactly when
   completion and repair read the scan's coverage of it alike.
   */
  lemma RowStaysInSyncIff(db: Db, s: ScanId, scan: Scan, obs: seq<Observation>, f: string)
    requires Sync(db) && CanIngest(db, s, scan, obs) && f in db.rows
    ensures var db' := RunScan(db, s, scan, obs);
            f in db'.rows &&
            (InSync(db', f) <==>
              if f in Keys(obs) then ScopeIsHarmless(db, scan.target, f)
              else !Associated(db, f, scan.target)
                   || (Claims(scan, db.rows[f].template, db.rows[f].endpoint) ==> Junk !in scan.coverage.value))
  {
    var db' := RunScan(db, s, scan, obs);
    SyncIsSettled(db);
    RunRow(db, s, scan, obs, f);
    ObserversExist(db, f);
    ReplayOfRun(db, s, scan, f, f in Keys(obs), db');
  }

  lemma RowOfRun(db: Db, s: ScanId, scan: Scan, obs: seq<Observation>, f: string)
    requires Sync(db) && CanIngest(db, s, scan, obs) && WellFormedCoverage(scan)
    requires f in RunScan(db, s, scan, obs).rows
    ensures var db' := RunScan(db, s, scan, obs);
            && Observers(db', f) <= CompleteScans(db') && db'.rows[f].template != ""
            && (InSync(db', f) <==> (f in db.rows && f in Keys(obs) ==> ScopeIsHarmless(db, scan.target, f)))
  {
    var db' := RunScan(db, s, scan, obs);
    SyncIsSettled(db);
    RunRow(db, s, scan, obs, f);
    OrderAfterRun(db, s, scan, db');
    ObserversExist(db, f);
    if f in db.rows {
      RowStaysInSyncIff(db, s, scan, obs, f);
    } else {
      NewFindingReplaysToOneScan(db, s, scan, obs, f, db');
    }
  }

  lemma HarmlessByKey(db: Db, scan: Scan, obs: seq<Observation>)
    ensures ScopesAreHarmless(db, scan, obs) <==>
            forall f :: f in db.rows && f in Keys(obs) ==> ScopeIsHarmless(db, scan.target, f)
  {
    if ScopesAreHarmless(db, scan, obs) {
      forall f | f in db.rows && f in Keys(obs)
        ensures ScopeIsHarmless(db, scan.target, f)
      {
        var i :| 0 <= i < |obs| && obs[i].key == f;
      }
    }
    assert forall i :: 0 <= i < |obs| ==> obs[i] in obs && obs[i].key in Keys(obs);
  }

  /** With well-formed coverage, a run keeps every row in step exactly when all its scopes are harmless. */
  lemma RunScanKeepsSyncIff(db: Db, s: ScanId, scan: Scan, obs: seq<Observation>)
    requires Sync(db) && CanIngest(db, s, scan, obs) && WellFormedCoverage(scan)
    ensures Sync(RunScan(db, s, scan, obs)) <==> ScopesAreHarmless(db, scan, obs)
  {
    var db' := RunScan(db, s, scan, obs);
    SyncIsSettled(db);
    HarmlessByKey(db, scan, obs);
    forall f
      ensures f in db'.rows <==> f in db.rows || f in Keys(obs)
    {
      RunRow(db, s, scan, obs, f);
    }
    forall f | f in db'.rows
      ensures Observers(db', f) <= CompleteScans(db') && db'.rows[f].template != ""
      ensures InSync(db', f) <==> (f in db.rows && f in Keys(obs) ==> ScopeIsHarmless(db, scan.target, f))
    {
      RowOfRun(db, s, scan, obs, f);
    }
    RunRow(db, s, scan, obs, "");
  }

  lemma RunScanKeepsSync(db: Db, s: ScanId, scan: Scan, obs: seq<Observation>)
    requires Sync(db) && CanRun(db, s, scan, obs)
    ensures Sync(RunScan(db, s, scan, obs))
  {
    RunScanKeepsSyncIff(db, s, scan, obs);
  }

  // ---- The other steps ----

  lemma DeleteKeepsSync(db: Db, s: ScanId)
    requires Sync(db) && DeleteScan(db, s).Ok?
    ensures Sync(DeleteScan(db, s).value)
  {
    var db' := DeleteScan(db, s).value;
    DeleteKeepsConsistent(db, s);
    assert CompleteScans(db') == CompleteScans(db) - {s};
    forall f | f in db'.rows
      ensures Observers(db', f) <= CompleteScans(db') && db'.rows[f].template != "" && InSync(db', f)
    {
      DeletedRowInSync(db, s, f);
    }
  }

  lemma DeletedRowInSync(db: Db, s: ScanId, f: string)
    requires Sync(db) && DeleteScan(db, s).Ok? && f in DeleteScan(db, s).value.rows
    ensures f in db.rows
    ensures var db' := DeleteScan(db, s).value;
            db'.rows[f].template == db.rows[f].template && InSync(db', f) && Observers(db', f) <= Observers(db, f) - {s}
  {
    if f !in db.rows {
      StaysGone(db, s, f);
    }
    RowAfterDelete(db, s, f);
    AffectedSetIsComplete(db, s, f);
  }

  /** A scan that does not complete, and did not observe the finding, leaves its replay alone. */
  lemma IncompleteReplaysTheSame(db: Db, s: ScanId, scan: Scan, f: string, db': Db)
    requires f in db.rows && f in db'.rows && s !in db.scans && scan.state != Complete
    requires db'.scans == db.scans[s := scan]
    requires Observers(db, f) <= db.scans.Keys && Observers(db', f) == Observers(db, f)
    requires db'.rows[f].template == db.rows[f].template && db'.rows[f].endpoint == db.rows[f].endpoint
    ensures TimelineOf(db', f) == TimelineOf(db, f)
  {
    var order := Chronological(db.scans, CompleteScans(db));
    assert CompleteScans(db') == CompleteScans(db);
    ChronologicalCongruence(db.scans, db'.scans, CompleteScans(db));
    ChronologicalOrder(db.scans, CompleteScans(db));
    forall c | c in order
      ensures c in Covering(db', f) <==> c in Covering(db, f)
    {
      assert Associated(db', f, db.scans[c].target) <==> Associated(db, f, db.scans[c].target);
    }
    ReplayCongruence(order, Covering(db, f), Observers(db, f), Covering(db', f), Observers(db', f));
  }

  /** A scan that ends without results and without completing. */
  lemma EmptyHandedKeepsSync(db: Db, s: ScanId, scan: Scan)
    requires Sync(db) && s !in db.scans && scan.state != Complete && WellFormedCoverage(scan)
    ensures Sync(db.(scans := db.scans[s := scan]))
  {
    var db' := db.(scans := db.scans[s := scan]);
    assert CompleteScans(db') == CompleteScans(db);
    forall f | f in db'.rows
      ensures InSync(db', f) && Observers(db', f) <= CompleteScans(db')
    {
      assert InSync(db, f) && Observers(db', f) == Observers(db, f);
      ObserversExist(db, f);
      IncompleteReplaysTheSame(db, s, scan, f, db');
    }
  }

  // ---- Runs ----

  datatype Event =
    | Ran(s: ScanId, scan: Scan, obs: seq<Observation>)
    | EndedEmptyHanded(s: ScanId, scan: Scan)
    | Deleted(s: ScanId)

  function Apply(db: Db, e: Event): Db {
    match e
    case Ran(s, scan, obs) => RunScan(db, s, scan, obs)
    case EndedEmptyHanded(s, scan) => db.(scans := db.scans[s := scan])
    case Deleted(s) => if DeleteScan(db, s).Ok? then DeleteScan(db, s).value else db
  }

  /** Everything an event may assume but the scopes: in order, complete, fixed endpoints, sound coverage. */
  ghost predicate Orderly(db: Db, e: Event) {
    match e
    case Ran(s, scan, obs) => CanIngest(db, s, scan, obs) && WellFormedCoverage(scan)
    case EndedEmptyHanded(s, scan) => s !in db.scans && scan.state != Complete && WellFormedCoverage(scan)
    case Deleted(s) => true
  }

  ghost predicate Allowed(db: Db, e: Event) {
    match e
    case Ran(s, scan, obs) => CanRun(db, s, scan, obs)
    case EndedEmptyHanded(s, scan) => s !in db.scans && scan.state != Complete && WellFormedCoverage(scan)
    case Deleted(s) => true
  }

  function After(events: seq<Event>): Db {
    if events == [] then EMPTY else Apply(After(events[..|events| - 1]), events[|events| - 1])
  }

  ghost predicate IsRun(events: seq<Event>) {
    forall i :: 0 <= i < |events| ==> Allowed(After(events[..i]), events[i])
  }

  /** After any run, every row is exactly the replay of what the tables still hold. */
  lemma {:induction false} IncrementalIsReplay(events: seq<Event>)
    requires IsRun(events)
    ensures Sync(After(events))
  {
    if events != [] {
      var init, e := events[..|events| - 1], events[|events| - 1];
      forall i | 0 <= i < |init|
        ensures Allowed(After(init[..i]), init[i])
      {
        assert init[..i] == events[..i];
      }
      IncrementalIsReplay(init);
      assert Allowed(After(init), e);
      match e {
        case Ran(s, scan, obs) => RunScanKeepsSync(After(init), s, scan, obs);
        case EndedEmptyHanded(s, scan) => EmptyHandedKeepsSync(After(init), s, scan);
        case Deleted(s) =>
          if DeleteScan(After(init), s).Ok? {
            DeleteKeepsSync(After(init), s);
          }
      }
    }
  }

  /** With several scopes: the rows agree with the replay all along an orderly run exactly when it is allowed. */
  lemma {:induction false} AgreesAllAlongIff(events: seq<Event>)
    requires forall i :: 0 <= i < |events| ==> Orderly(After(events[..i]), events[i])
    ensures (forall n :: 0 <= n <= |events| ==> Sync(After(events[..n]))) <==> IsRun(events)
  {
    if IsRun(events) {
      forall n | 0 <= n <= |events|
        ensures Sync(After(events[..n]))
      {
        PrefixIsRun(events, n);
        IncrementalIsReplay(events[..n]);
      }
    }
    if forall n :: 0 <= n <= |events| ==> Sync(After(events[..n])) {
      forall i | 0 <= i < |events|
        ensures Allowed(After(events[..i]), events[i])
      {
        assert Sync(After(events[..i])) && Sync(After(events[..i + 1]));
        AllowedNext(events, i);
      }
    }
  }

  lemma AllowedNext(events: seq<Event>, i: nat)
    requires i < |events| && Orderly(After(events[..i]), events[i])
    requires Sync(After(events[..i])) && Sync(After(events[..i + 1]))
    ensures Allowed(After(events[..i]), events[i])
  {
    assert events[..i + 1][..i] == events[..i];
    AllowedWhenSynced(After(events[..i]), events[i]);
  }

  lemma PrefixIsRun(events: seq<Event>, n: nat)
    requires n <= |events| && IsRun(events)
    ensures IsRun(events[..n])
  {
    forall i | 0 <= i < n
      ensures Allowed(After(events[..n][..i]), events[..n][i])
    {
      assert events[..n][..i] == events[..i];
    }
  }

  lemma AllowedWhenSynced(db: Db, e: Event)
    requires Sync(db) && Orderly(db, e)
    ensures Sync(Apply(db, e)) ==> Allowed(db, e)
  {
    if e.Ran? {
      RunScanKeepsSyncIff(db, e.s, e.scan, e.obs);
    }
  }

  // ---- Where the agreement ends ----

  /** With one target scope the scope condition always holds. */
  lemma SingleScopeIsHarmless(db: Db, target: Option<nat>, f: string)
    requires Sync(db) && f in db.rows
    requires forall s :: s in db.scans ==> db.scans[s].target == target
    ensures ScopeIsHarmless(db, target, f)
  {
    SeenIffObserved(db, f);
    assert InSync(db, f);
  }

  /** A failed scan keeps exactly those rows in step that it did not observe. */
  lemma FailedScanInSyncIff(db: Db, s: ScanId, scan: Scan, obs: seq<Observation>, f: string)
    requires Sync(db) && CanIngest(db, s, scan, obs)
    requires f in FailScan(db, s, scan, obs).rows
    ensures InSync(FailScan(db, s, scan, obs), f) <==> f !in Keys(obs)
  {
    var db1 := IngestAll(Insert(db, s, scan), s, obs);
    var db' := FailScan(db, s, scan, obs);
    SyncIsSettled(db);
    IngestInOrder(db, s, scan, obs, f);
    assert Observers(db', f) == Observers(db1, f);
    if f in Keys(obs) {
      ChronologicalOrder(db'.scans, CompleteScans(db'));
      ReplayShape(Chronological(db'.scans, CompleteScans(db')), Covering(db', f), Observers(db', f));
    } else {
      ObserversExist(db, f);
      IncompleteReplaysTheSame(db, s, scan.(state := Failed), f, db');
    }
  }

  /**
   Otherwise the row of an observed finding falls out of step in its counter alone: the replay counts
   mitigation cycles from claims that its scans made before the target was associated.
   */
  lemma LateAssociationBreaksSync(db: Db, s: ScanId, scan: Scan, obs: seq<Observation>, f: string)
    requires Sync(db) && CanIngest(db, s, scan, obs) && f in db.rows && f in Keys(obs)
    requires !ScopeIsHarmless(db, scan.target, f)
    ensures var db' := RunScan(db, s, scan, obs);
            && f in db'.rows && !InSync(db', f)
            && TimelineOf(db', f) == db'.rows[f].history.(times := TimelineOf(db', f).times)
            && TimelineOf(db', f).times > db'.rows[f].history.times
  {
    var db' := RunScan(db, s, scan, obs);
    SyncIsSettled(db);
    RunRow(db, s, scan, obs, f);
    ObserversExist(db, f);
    ReplayOfRun(db, s, scan, f, true, db');
  }
}
